/** The demonstration program of transaction-log/src/main.rs. That file
    carries its own copy of `Node` and `TransactionLog`, which differs from
    the one in lib.rs only in the name of the link alias (`SingleLink` for
    `Link`) and in the two structs not being `pub`; the behaviour is the
    same, so it runs against module LinkedLog. It has no
    cursor type, so the only links to a node are the log's own; `Pop`'s
    postcondition says the log holds none to the popped node, hence the
    `try_unwrap(...).expect(...)` of the source never panics here. The
    `dbg!` printing is not modelled. */
module Demo {
  import opened LogSpec
  import opened LinkedLog

  /** Three appends, then four pops: the entries come back in append order,
      the fourth pop finds the log empty, and the final length is 0. The pop
      results are those `Replay` gives for the same calls. */
  method RunDemo() returns (p1: Option<string>, p2: Option<string>, p3: Option<string>, p4: Option<string>, finalLength: nat)
    ensures p1 == Some("Log Item 1") && p2 == Some("Log Item 2") && p3 == Some("Log Item 3")
    ensures p4 == None
    ensures finalLength == 0
    ensures [p1, p2, p3, p4] == Replay([], Appends(["Log Item 1", "Log Item 2", "Log Item 3"]) + Pops(4)).popped
  {
    var tl := new TransactionLog();
    tl.Append("Log Item 1");
    tl.Append("Log Item 2");
    tl.Append("Log Item 3");
    p1 := tl.Pop();
    p2 := tl.Pop();
    p3 := tl.Pop();
    p4 := tl.Pop();
    finalLength := tl.length;
    AppendsThenPopsAreFifo(["Log Item 1", "Log Item 2", "Log Item 3"]);
  }
}
