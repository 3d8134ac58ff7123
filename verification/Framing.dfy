/**
 Delimiter framing: which records a consumer sees that repeatedly yields on a delimiter, while
 bytes arrive in arbitrary chunks.
 */
module Framing {
  import opened Common
  import opened Buffer

  /** The records of a whole input: each runs to the end of its first delimiter. */
  function Frames(input: seq<byte>, delim: seq<byte>): seq<seq<byte>>
    requires delim != []
    decreases |input|
  {
    match FirstIndex(input, delim)
    case None => []
    case Some(i) => [input[..i + |delim|]] + Frames(input[i + |delim|..], delim)
  }

  /** What follows the last delimiter. */
  function Rest(input: seq<byte>, delim: seq<byte>): seq<byte>
    requires delim != []
    decreases |input|
  {
    match FirstIndex(input, delim)
    case None => input
    case Some(i) => Rest(input[i + |delim|..], delim)
  }

  function Concat(ss: seq<seq<byte>>): seq<byte> {
    if ss == [] then [] else ss[0] + Concat(ss[1..])
  }

  lemma {:induction false} Cut(s: seq<byte>, k: nat)
    requires k <= |s|
    ensures s == s[..k] + s[k..]
  {
  }

  lemma {:induction false} ConcatCons(r: seq<byte>, ss: seq<seq<byte>>)
    ensures Concat([r] + ss) == r + Concat(ss)
  {
    assert ([r] + ss)[1..] == ss;
  }

  lemma {:induction false} ConcatSnoc(ss: seq<seq<byte>>, r: seq<byte>)
    ensures Concat(ss + [r]) == Concat(ss) + r
    decreases |ss|
  {
    if ss == [] {
      assert ss + [r] == [r] + [];
      ConcatCons(r, []);
    } else {
      assert (ss + [r])[1..] == ss[1..] + [r];
      ConcatSnoc(ss[1..], r);
      Assoc(ss[0], Concat(ss[1..]), r);
    }
  }

  /** Nothing is lost, added or reordered: records and rest put together are the input. */
  lemma {:induction false} FramesConserve(input: seq<byte>, delim: seq<byte>)
    requires delim != []
    ensures Concat(Frames(input, delim)) + Rest(input, delim) == input
    decreases |input|
  {
    var found := FirstIndex(input, delim);
    if found.Some? {
      var k := found.value + |delim|;
      FramesConserve(input[k..], delim);
      ConcatCons(input[..k], Frames(input[k..], delim));
      Assoc(input[..k], Concat(Frames(input[k..], delim)), Rest(input[k..], delim));
      Cut(input, k);
    }
  }

  lemma {:induction false} OccursInPrefix(hay: seq<byte>, more: seq<byte>, needle: seq<byte>, j: nat)
    requires j + |needle| <= |hay|
    ensures OccursAt(hay, needle, j) <==> OccursAt(hay + more, needle, j)
  {
    assert (hay + more)[j..j + |needle|] == hay[j..j + |needle|];
  }

  /** A delimiter found early stays the first one when more bytes arrive. */
  lemma {:induction false} FirstIndexStable(hay: seq<byte>, more: seq<byte>, needle: seq<byte>, k: nat)
    requires FirstIndex(hay, needle) == Some(k)
    ensures FirstIndex(hay + more, needle) == Some(k)
  {
    FirstIndexIs(hay, needle, k);
    forall j: nat | j <= k ensures OccursAt(hay, needle, j) <==> OccursAt(hay + more, needle, j) {
      OccursInPrefix(hay, more, needle, j);
    }
    FirstIndexIs(hay + more, needle, k);
  }

  /** Every record ends with the delimiter and contains it nowhere earlier. */
  lemma {:induction false} RecordEndsAtFirstDelimiter(input: seq<byte>, delim: seq<byte>, n: nat)
    requires delim != [] && n < |Frames(input, delim)|
    ensures var r := Frames(input, delim)[n];
            |delim| <= |r| && FirstIndex(r, delim) == Some(|r| - |delim|)
    decreases |input|
  {
    var i := FirstIndex(input, delim).value;
    var k := i + |delim|;
    if n == 0 {
      var r := input[..k];
      FirstIndexIs(input, delim, i);
      assert input == r + input[k..];
      forall j: nat | j <= i ensures OccursAt(r, delim, j) <==> OccursAt(input, delim, j) {
        OccursInPrefix(r, input[k..], delim, j);
      }
      FirstIndexIs(r, delim, i);
    } else {
      RecordEndsAtFirstDelimiter(input[k..], delim, n - 1);
    }
  }

  lemma {:induction false} RestHasNone(input: seq<byte>, delim: seq<byte>)
    requires delim != []
    ensures FirstIndex(Rest(input, delim), delim) == None
    decreases |input|
  {
    var found := FirstIndex(input, delim);
    if found.Some? { RestHasNone(input[found.value + |delim|..], delim); }
  }

  /** Framing can be suspended at any point: only the unfinished rest has to be remembered. */
  lemma {:induction false} FramesResume(x: seq<byte>, y: seq<byte>, delim: seq<byte>)
    requires delim != []
    ensures Frames(x + y, delim) == Frames(x, delim) + Frames(Rest(x, delim) + y, delim)
    decreases |x|
  {
    var found := FirstIndex(x, delim);
    if found.Some? {
      var k := found.value + |delim|;
      FirstIndexStable(x, y, delim, found.value);
      CutConcat(x, y, k);
      FramesResume(x[k..], y, delim);
      var first, before, after := [x[..k]], Frames(x[k..], delim), Frames(Rest(x[k..], delim) + y, delim);
      FramesAt(x, delim, k);
      FramesAt(x + y, delim, k);
      assert Frames(x + y, delim) == first + (before + after);
      Assoc(first, before, after);
    } else {
      assert [] + Frames(x + y, delim) == Frames(x + y, delim);
    }
  }

  lemma {:induction false} FramesAt(x: seq<byte>, delim: seq<byte>, k: nat)
    requires delim != [] && |delim| <= k && FirstIndex(x, delim) == Some(k - |delim|)
    ensures Frames(x, delim) == [x[..k]] + Frames(x[k..], delim) && Rest(x, delim) == Rest(x[k..], delim)
  {
  }

  lemma {:induction false} RestResume(x: seq<byte>, y: seq<byte>, delim: seq<byte>)
    requires delim != []
    ensures Rest(x + y, delim) == Rest(Rest(x, delim) + y, delim)
    decreases |x|
  {
    var found := FirstIndex(x, delim);
    if found.Some? {
      var k := found.value + |delim|;
      FirstIndexStable(x, y, delim, found.value);
      CutConcat(x, y, k);
      RestResume(x[k..], y, delim);
      assert Rest(x + y, delim) == Rest(x[k..] + y, delim);
    }
  }

  lemma {:induction false} CutConcat(x: seq<byte>, y: seq<byte>, k: nat)
    requires k <= |x|
    ensures (x + y)[..k] == x[..k] && (x + y)[k..] == x[k..] + y
  {
  }

  // ---- A consumer and its input ----

  /** What has been yielded and what is still unread. */
  datatype Consumer = Consumer(records: seq<seq<byte>>, unread: seq<byte>)

  /** Bytes arrive, the consumer tries to yield one record, or the buffer is extended. */
  datatype Event = Arrive(chunk: seq<byte>) | Yield | Extend(len: nat, granted: bool)

  function Step(c: Consumer, delim: seq<byte>, e: Event): Consumer {
    match e
    case Arrive(chunk) => c.(unread := c.unread + chunk)
    case Extend(_, _) => c
    case Yield =>
      match FirstIndex(c.unread, delim)
      case None => c
      case Some(i) => Consumer(c.records + [c.unread[..i + |delim|]], c.unread[i + |delim|..])
  }

  function Run(c: Consumer, delim: seq<byte>, events: seq<Event>): Consumer
    decreases |events|
  {
    if events == [] then c else Run(Step(c, delim, events[0]), delim, events[1..])
  }

  lemma {:induction false} RunSnoc(c: Consumer, delim: seq<byte>, events: seq<Event>, e: Event)
    ensures Run(c, delim, events + [e]) == Step(Run(c, delim, events), delim, e)
    decreases |events|
  {
    if events == [] {
      assert ([] + [e])[1..] == [];
    } else {
      assert (events + [e])[1..] == events[1..] + [e];
      RunSnoc(Step(c, delim, events[0]), delim, events[1..], e);
    }
  }

  function Input(events: seq<Event>): seq<byte>
    decreases |events|
  {
    if events == [] then []
    else (if events[0].Arrive? then events[0].chunk else []) + Input(events[1..])
  }

  lemma {:induction false} InputSnoc(events: seq<Event>, e: Event)
    ensures Input(events + [e]) == Input(events) + if e.Arrive? then e.chunk else []
    decreases |events|
  {
    if events == [] {
      assert ([] + [e])[1..] == [];
    } else {
      assert (events + [e])[1..] == events[1..] + [e];
      InputSnoc(events[1..], e);
    }
  }

  /** The consumer stands somewhere on the way through `input`. */
  ghost predicate Follows(c: Consumer, delim: seq<byte>, input: seq<byte>)
    requires delim != []
  {
    && c.records + Frames(c.unread, delim) == Frames(input, delim)
    && Rest(c.unread, delim) == Rest(input, delim)
    && Concat(c.records) + c.unread == input
  }

  lemma {:induction false} ArriveFollows(c: Consumer, delim: seq<byte>, input: seq<byte>, chunk: seq<byte>)
    requires delim != [] && Follows(c, delim, input)
    ensures Follows(Step(c, delim, Arrive(chunk)), delim, input + chunk)
  {
    FramesResume(c.unread, chunk, delim);
    FramesResume(input, chunk, delim);
    RestResume(c.unread, chunk, delim);
    RestResume(input, chunk, delim);
    Assoc(c.records, Frames(c.unread, delim), Frames(Rest(c.unread, delim) + chunk, delim));
    Assoc(Concat(c.records), c.unread, chunk);
  }

  lemma {:induction false} YieldFollows(c: Consumer, delim: seq<byte>, input: seq<byte>)
    requires delim != [] && Follows(c, delim, input)
    ensures Follows(Step(c, delim, Yield), delim, input)
  {
    var found := FirstIndex(c.unread, delim);
    if found.Some? {
      var k := found.value + |delim|;
      ConcatSnoc(c.records, c.unread[..k]);
      Assoc(Concat(c.records), c.unread[..k], c.unread[k..]);
      Cut(c.unread, k);
      Assoc(c.records, [c.unread[..k]], Frames(c.unread[k..], delim));
    }
  }

  lemma {:induction false} RunFollows(c: Consumer, delim: seq<byte>, input: seq<byte>, events: seq<Event>)
    requires delim != [] && Follows(c, delim, input)
    ensures Follows(Run(c, delim, events), delim, input + Input(events))
    decreases |events|
  {
    if events == [] {
      assert input + Input(events) == input;
    } else {
      var chunk := if events[0].Arrive? then events[0].chunk else [];
      match events[0] {
        case Arrive(_) =>
          ArriveFollows(c, delim, input, chunk);
        case Yield =>
          YieldFollows(c, delim, input);
          assert input + chunk == input;
        case Extend(_, _) =>
          assert input + chunk == input;
      }
      RunFollows(Step(c, delim, events[0]), delim, input + chunk, events[1..]);
      assert input + chunk + Input(events[1..]) == input + Input(events);
    }
  }

  // ---- Yielding makes progress ----

  /** A yield takes everything up to the end of the first delimiter, and nothing when there is none. */
  lemma {:induction false} YieldTakes(c: Consumer, delim: seq<byte>, k: nat)
    ensures OccursAt(c.unread, delim, k) && (forall j: nat :: j < k ==> !OccursAt(c.unread, delim, j)) ==>
              Step(c, delim, Yield) == Consumer(c.records + [c.unread[..k + |delim|]], c.unread[k + |delim|..])
    ensures (forall j: nat :: !OccursAt(c.unread, delim, j)) ==> Step(c, delim, Yield) == c
  {
    FirstIndexIs(c.unread, delim, k);
    SearchFinds(c.unread, delim, 0);
  }

  /** Enough yields in a row leave no delimiter unread and have handed out every record. */
  lemma {:induction false} YieldsDrain(c: Consumer, delim: seq<byte>, events: seq<Event>)
    requires delim != [] && |c.unread| <= |events| && forall i :: 0 <= i < |events| ==> events[i].Yield?
    ensures Run(c, delim, events) == Consumer(c.records + Frames(c.unread, delim), Rest(c.unread, delim))
    ensures FirstIndex(Run(c, delim, events).unread, delim) == None
    decreases |events|
  {
    if events == [] {
      assert c.records + [] == c.records;
    } else {
      var next := Step(c, delim, Yield);
      if FirstIndex(c.unread, delim) == None {
        YieldsIdle(c, delim, events);
        assert c.records + [] == c.records;
      } else {
        YieldsDrain(next, delim, events[1..]);
        var k := FirstIndex(c.unread, delim).value + |delim|;
        Assoc(c.records, [c.unread[..k]], Frames(c.unread[k..], delim));
      }
    }
  }

  lemma {:induction false} YieldsIdle(c: Consumer, delim: seq<byte>, events: seq<Event>)
    requires FirstIndex(c.unread, delim) == None && forall i :: 0 <= i < |events| ==> events[i].Yield?
    ensures Run(c, delim, events) == c
    decreases |events|
  {
    if events != [] { YieldsIdle(c, delim, events[1..]); }
  }

  /**
   Two consumers of the same bytes that have both yielded until nothing was found hold the same
   records and the same unread bytes, however the bytes were cut and the yields interleaved.
   */
  lemma {:induction false} ChunkingIrrelevant(delim: seq<byte>, events: seq<Event>, events': seq<Event>)
    requires delim != [] && Input(events) == Input(events')
    requires FirstIndex(Run(Consumer([], []), delim, events).unread, delim) == None
    requires FirstIndex(Run(Consumer([], []), delim, events').unread, delim) == None
    ensures Run(Consumer([], []), delim, events) == Run(Consumer([], []), delim, events')
    ensures Run(Consumer([], []), delim, events) == Consumer(Frames(Input(events), delim), Rest(Input(events), delim))
  {
    DrainedConsumer(delim, events);
    DrainedConsumer(delim, events');
  }

  lemma {:induction false} DrainedConsumer(delim: seq<byte>, events: seq<Event>)
    requires delim != [] && FirstIndex(Run(Consumer([], []), delim, events).unread, delim) == None
    ensures Run(Consumer([], []), delim, events) == Consumer(Frames(Input(events), delim), Rest(Input(events), delim))
  {
    var c := Run(Consumer([], []), delim, events);
    assert Follows(Consumer([], []), delim, []);
    RunFollows(Consumer([], []), delim, [], events);
    assert [] + Input(events) == Input(events);
    assert Frames(c.unread, delim) == [] && Rest(c.unread, delim) == c.unread;
    assert c.records + [] == c.records;
  }
}
