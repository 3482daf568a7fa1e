/**
 * The content multiplexer: a list of fused streams and a selector that names, on every
 * poll, the one stream to pull from. A stream is a finite list of items and a cursor;
 * "not ready yet" is abstracted away, so every poll either yields the next item or
 * reports the end of the stream.
 */
module Multiplex {
  import opened Wrappers

  /** A fused stream: once it has reported its end it stays terminated. */
  datatype Fused<T> = Fused(items: seq<T>, pos: nat, done: bool) {

    predicate IsTerminated() {
      done
    }
  }

  function FromItems<T>(items: seq<T>): (s: Fused<T>)
    ensures s.items == items && s.pos == 0 && !s.IsTerminated()
  {
    Fused(items, 0, false)
  }

  /** `poll_next` of a fused stream: the item under the cursor, or the end (after which
      every further poll reports the end as well). */
  function PollFused<T>(s: Fused<T>): (r: (Option<T>, Fused<T>))
    ensures r.1.items == s.items
    ensures r.0.Some? <==> !s.done && s.pos < |s.items|
    ensures r.0.Some? ==> r.0.value == s.items[s.pos] && r.1 == s.(pos := s.pos + 1)
    ensures r.0.None? ==> r.1 == s.(done := true)
  {
    if s.done then (None, s)
    else if s.pos < |s.items| then (Some(s.items[s.pos]), s.(pos := s.pos + 1))
    else (None, s.(done := true))
  }

  /** Polling past the end keeps reporting the end and changes nothing more. */
  lemma FusedStaysTerminated<T>(s: Fused<T>)
    requires s.IsTerminated()
    ensures PollFused(s) == (None, s)
  {
  }

  datatype Multiplexer<T> = Multiplexer(inner: seq<Fused<T>>)

  /** `multiplex`: collects the streams, one by one, into the multiplexer; the result
      is the one `Multiplexer::new` builds from the same vector. */
  method Multiplex<T>(streams: seq<Fused<T>>) returns (m: Multiplexer<T>)
    ensures m.inner == streams
    ensures m == New(streams)
  {
    var collected: seq<Fused<T>> := [];
    var i := 0;
    while i < |streams|
      invariant 0 <= i <= |streams|
      invariant collected == streams[..i]
    {
      collected := collected + [streams[i]];
      i := i + 1;
    }
    m := Multiplexer(collected);
  }

  /** `Multiplexer::new`: takes the vector as it is. */
  function New<T>(streams: seq<Fused<T>>): (m: Multiplexer<T>)
    ensures |m.inner| == |streams|
    ensures forall i :: 0 <= i < |streams| ==> m.inner[i] == streams[i]
  {
    Multiplexer(streams)
  }

  /** `poll_next`: poll only the stream the selector names and return what it returns.
      An index past the end is the "Bad index" panic, excluded here. */
  function PollNext<T>(m: Multiplexer<T>, index: nat): (r: (Option<T>, Multiplexer<T>))
    requires index < |m.inner|
    ensures |r.1.inner| == |m.inner|
    ensures r.0 == PollFused(m.inner[index]).0
    ensures r.1.inner[index] == PollFused(m.inner[index]).1
    ensures forall j :: 0 <= j < |m.inner| && j != index ==> r.1.inner[j] == m.inner[j]
  {
    var (item, s) := PollFused(m.inner[index]);
    (item, Multiplexer(m.inner[index := s]))
  }

  /** `is_terminated` as the source computes it: a left-to-right `all`. */
  function AllTerminated<T>(streams: seq<Fused<T>>): bool {
    if |streams| == 0 then true
    else streams[0].IsTerminated() && AllTerminated(streams[1..])
  }

  /** `is_terminated`: every inner stream has ended (vacuously so with none). */
  function IsTerminated<T>(m: Multiplexer<T>): (r: bool)
    ensures r <==> forall i :: 0 <= i < |m.inner| ==> m.inner[i].IsTerminated()
  {
    AllTerminatedIff(m.inner);
    AllTerminated(m.inner)
  }

  /** The multiplexer is terminated exactly when every inner stream is; with no streams
      it is terminated from the start. */
  lemma {:induction false} AllTerminatedIff<T>(streams: seq<Fused<T>>)
    ensures AllTerminated(streams) <==> forall i :: 0 <= i < |streams| ==> streams[i].IsTerminated()
  {
    if |streams| > 0 {
      AllTerminatedIff(streams[1..]);
      assert forall i :: 1 <= i < |streams| ==> streams[i] == streams[1..][i - 1];
    }
  }

  lemma IsTerminatedIff<T>(m: Multiplexer<T>)
    ensures IsTerminated(m) <==> forall i :: 0 <= i < |m.inner| ==> m.inner[i].IsTerminated()
    ensures |m.inner| == 0 ==> IsTerminated(m)
  {
    AllTerminatedIff(m.inner);
  }

  predicate ValidSelections<T>(m: Multiplexer<T>, sels: seq<nat>) {
    forall k :: 0 <= k < |sels| ==> sels[k] < |m.inner|
  }

  /** Polls the multiplexer once per selection, collecting the outputs. */
  function Run<T>(m: Multiplexer<T>, sels: seq<nat>): (r: (seq<Option<T>>, Multiplexer<T>))
    requires ValidSelections(m, sels)
    ensures |r.0| == |sels| && |r.1.inner| == |m.inner|
    decreases |sels|
  {
    if |sels| == 0 then ([], m)
    else
      var step := PollNext(m, sels[0]);
      var rest := Run(step.1, sels[1..]);
      ([step.0] + rest.0, rest.1)
  }

  function Count(sels: seq<nat>, i: nat): (r: nat)
    ensures r <= |sels|
  {
    if |sels| == 0 then 0 else (if sels[0] == i then 1 else 0) + Count(sels[1..], i)
  }

  /** A stream that is never selected is untouched by a whole run. */
  lemma {:induction false} RunLeavesOthers<T>(m: Multiplexer<T>, sels: seq<nat>, i: nat)
    requires ValidSelections(m, sels) && i < |m.inner| && Count(sels, i) == 0
    ensures Run(m, sels).1.inner[i] == m.inner[i]
    decreases |sels|
  {
    if |sels| > 0 {
      var m' := PollNext(m, sels[0]).1;
      RunLeavesOthers(m', sels[1..], i);
    }
  }

  /** While a stream has items left, a run moves its cursor by exactly the number of
      times it was selected. */
  lemma {:induction false} RunAdvances<T>(m: Multiplexer<T>, sels: seq<nat>, i: nat)
    requires ValidSelections(m, sels) && i < |m.inner|
    requires !m.inner[i].done && m.inner[i].pos + Count(sels, i) <= |m.inner[i].items|
    ensures Run(m, sels).1.inner[i] == m.inner[i].(pos := m.inner[i].pos + Count(sels, i))
    decreases |sels|
  {
    if |sels| > 0 {
      var m' := PollNext(m, sels[0]).1;
      RunAdvances(m', sels[1..], i);
    }
  }

  /** The selections `[0, 1, 0]` yield stream 0's first item, stream 1's first item and
      stream 0's second item; stream 1 has moved by one. */
  lemma InterleavedRun<T>(a: seq<T>, b: seq<T>)
    requires |a| >= 2 && |b| >= 1
    ensures var m := New([FromItems(a), FromItems(b)]);
      var r := Run(m, [0, 1, 0]);
      r.0 == [Some(a[0]), Some(b[0]), Some(a[1])] &&
      r.1.inner[1] == FromItems(b).(pos := 1) &&
      r.1.inner[0] == FromItems(a).(pos := 2)
  {
    var m := New([FromItems(a), FromItems(b)]);
    var m1 := PollNext(m, 0).1;
    assert PollNext(m, 0).0 == Some(a[0]);
    assert m1.inner[0] == FromItems(a).(pos := 1) && m1.inner[1] == FromItems(b);
    var m2 := PollNext(m1, 1).1;
    assert PollNext(m1, 1).0 == Some(b[0]);
    assert m2.inner[0] == FromItems(a).(pos := 1) && m2.inner[1] == FromItems(b).(pos := 1);
    var m3 := PollNext(m2, 0).1;
    assert PollNext(m2, 0).0 == Some(a[1]);
    assert [0][1..] == [];
    assert Run(m3, []) == ([], m3);
    assert [Some(a[1])] + [] == [Some(a[1])];
    assert Run(m2, [0]) == ([Some(a[1])], m3);
    assert [1, 0][1..] == [0];
    assert [Some(b[0])] + [Some(a[1])] == [Some(b[0]), Some(a[1])];
    assert Run(m1, [1, 0]) == ([Some(b[0]), Some(a[1])], m3);
    assert [0, 1, 0][1..] == [1, 0];
    assert [Some(a[0])] + [Some(b[0]), Some(a[1])] == [Some(a[0]), Some(b[0]), Some(a[1])];
  }
}
