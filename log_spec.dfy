/** The observable behaviour of a transaction log as a value: the entries it
    holds, oldest first, and what a run of `append`/`pop` calls returns.
    The linked implementation in module LinkedLog is proved against
    `PopFront` and `s + [v]`; the lemmas here are about runs of calls. */
module LogSpec {

  datatype Option<T> = None | Some(value: T)

  /** One public call on a log. */
  datatype Call = Append(entry: string) | Pop

  /** Entries left in the log after a run, and the results of its pops in order. */
  datatype Outcome = Outcome(contents: seq<string>, popped: seq<Option<string>>)

  /** `pop` on a log holding `s`: the oldest entry and what remains,
      or `None` and no change when the log is empty. */
  function PopFront(s: seq<string>): (r: (Option<string>, seq<string>))
  {
    if s == [] then (None, []) else (Some(s[0]), s[1..])
  }

  /** The calls applied one after another to a log that holds `s`. */
  function Replay(s: seq<string>, calls: seq<Call>): Outcome
    decreases |calls|
  {
    if calls == [] then Outcome(s, [])
    else match calls[0]
      case Append(v) => Replay(s + [v], calls[1..])
      case Pop =>
        var (r, rest) := PopFront(s);
        var tail := Replay(rest, calls[1..]);
        Outcome(tail.contents, [r] + tail.popped)
  }

  /** The entries handed to `append`, in call order. */
  function Appended(calls: seq<Call>): seq<string>
  {
    if calls == [] then []
    else match calls[0]
      case Append(v) => [v] + Appended(calls[1..])
      case Pop => Appended(calls[1..])
  }

  /** The entries a run of pops actually returned, dropping the empty signals. */
  function Delivered(popped: seq<Option<string>>): seq<string>
  {
    if popped == [] then []
    else match popped[0]
      case Some(v) => [v] + Delivered(popped[1..])
      case None => Delivered(popped[1..])
  }

  /** One `append` call per entry, in order. */
  function Appends(vs: seq<string>): (calls: seq<Call>)
    ensures |calls| == |vs|
  {
    if vs == [] then [] else [Append(vs[0])] + Appends(vs[1..])
  }

  /** `n` `pop` calls. */
  function Pops(n: nat): (calls: seq<Call>)
    ensures |calls| == n
  {
    if n == 0 then [] else [Pop] + Pops(n - 1)
  }

  /** The pop results that return these entries, in order. */
  function Somes(vs: seq<string>): (r: seq<Option<string>>)
    ensures |r| == |vs|
  {
    if vs == [] then [] else [Some(vs[0])] + Somes(vs[1..])
  }

  /** `n` empty signals. */
  function Nones(n: nat): (r: seq<Option<string>>)
    ensures |r| == n
  {
    if n == 0 then [] else [None] + Nones(n - 1)
  }

  /** FIFO: whatever the calls, the entries pops returned followed by the
      entries still held are the initial entries followed by the appended
      ones, in order. No entry is lost, duplicated or reordered. */
  lemma {:induction false} FifoConservation(s: seq<string>, calls: seq<Call>)
    ensures Delivered(Replay(s, calls).popped) + Replay(s, calls).contents == s + Appended(calls)
    decreases |calls|
  {
    if calls != [] {
      var rest := calls[1..];
      match calls[0]
      case Append(v) =>
        FifoConservation(s + [v], rest);
        assert Appended(calls) == [v] + Appended(rest);
        assert s + [v] + Appended(rest) == s + ([v] + Appended(rest));
      case Pop =>
        if s == [] {
          FifoConservation([], rest);
          assert Appended(calls) == Appended(rest);
        } else {
          FifoConservation(s[1..], rest);
          var tail := Replay(s[1..], rest);
          assert Replay(s, calls) == Outcome(tail.contents, [Some(s[0])] + tail.popped);
          assert ([Some(s[0])] + tail.popped)[1..] == tail.popped;
          assert Delivered([Some(s[0])] + tail.popped) == [s[0]] + Delivered(tail.popped);
          assert Appended(calls) == Appended(rest);
          calc {
            Delivered(Replay(s, calls).popped) + Replay(s, calls).contents;
            [s[0]] + (Delivered(tail.popped) + tail.contents);
            [s[0]] + (s[1..] + Appended(rest));
            { assert s == [s[0]] + s[1..]; }
            s + Appended(calls);
          }
        }
    }
  }

  /** The log's length after any run is the number of entries appended and not
      yet popped. */
  lemma LengthCountsUnpopped(s: seq<string>, calls: seq<Call>)
    ensures |Replay(s, calls).contents| == |s| + |Appended(calls)| - |Delivered(Replay(s, calls).popped)|
  {
    FifoConservation(s, calls);
  }

  /** Running `a` then `b` is the same as running `a + b`. */
  lemma {:induction false} ReplayConcat(s: seq<string>, a: seq<Call>, b: seq<Call>)
    ensures Replay(s, a + b).contents == Replay(Replay(s, a).contents, b).contents
    ensures Replay(s, a + b).popped == Replay(s, a).popped + Replay(Replay(s, a).contents, b).popped
    decreases |a|
  {
    if a == [] {
      assert a + b == b;
    } else {
      assert (a + b)[0] == a[0];
      assert (a + b)[1..] == a[1..] + b;
      match a[0]
      case Append(v) =>
        ReplayConcat(s + [v], a[1..], b);
      case Pop =>
        var (r, rest) := PopFront(s);
        ReplayConcat(rest, a[1..], b);
    }
  }

  /** Appending never returns anything and adds the entries at the end. */
  lemma {:induction false} ReplayAppends(s: seq<string>, vs: seq<string>)
    ensures Replay(s, Appends(vs)) == Outcome(s + vs, [])
    decreases |vs|
  {
    if vs != [] {
      ReplayAppends(s + [vs[0]], vs[1..]);
      assert s + [vs[0]] + vs[1..] == s + vs;
    }
  }

  /** Popping at least as often as there are entries returns every entry,
      oldest first, then the empty signal for each extra pop, and leaves the
      log empty. */
  lemma {:induction false} ReplayDrain(s: seq<string>, n: nat)
    requires |s| <= n
    ensures Replay(s, Pops(n)) == Outcome([], Somes(s) + Nones(n - |s|))
    decreases n
  {
    if n > 0 {
      ReplayDrain(if s == [] then [] else s[1..], n - 1);
      if s == [] {
        assert Nones(n) == [None] + Nones(n - 1);
      } else {
        assert Somes(s) + Nones(n - |s|) == [Some(s[0])] + (Somes(s[1..]) + Nones(n - |s|));
      }
    } else {
      assert s == [];
    }
  }

  /** N appends to an empty log followed by N + 1 pops return the N entries in
      append order and then the empty signal. */
  lemma {:induction false} AppendsThenPopsAreFifo(vs: seq<string>)
    ensures Replay([], Appends(vs) + Pops(|vs| + 1)) == Outcome([], Somes(vs) + [None])
  {
    ReplayConcat([], Appends(vs), Pops(|vs| + 1));
    ReplayAppends([], vs);
    assert [] + vs == vs;
    ReplayDrain(vs, |vs| + 1);
    assert Nones(1) == [None];
  }
}
