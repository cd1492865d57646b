/**
  The streaming UTF-8 to UTF-16 re-encoder of `convert_encoding`: the file is read in reads of at
  most 1024 bytes, each read is appended to the bytes left over from the previous round, the
  longest well-formed UTF-8 prefix of that chunk is re-encoded as UTF-16 and printed, and the
  rest is carried into the next round.
 */
module Converter {
  import opened Bytes
  import opened Wrappers
  import opened Lists
  import Utf8
  import Utf16

  /** Size of the fixed read buffer. */
  const BUFFER_SIZE: nat := 1024

  /** What one call of `read` gives: some bytes (none at end of file) or an error. */
  datatype ReadOutcome = Read(data: seq<uint8>) | ReadError

  /**
    What `File::open` gives: an error, or a reader whose successive `read` calls give `results`
    and report end of file after the last of them.
   */
  datatype OpenOutcome = OpenFailed | Opened(results: seq<ReadOutcome>)

  datatype IoError = IoError

  /** No read delivers more bytes than the buffer it reads into holds. */
  predicate FitsBuffer(results: seq<ReadOutcome>) {
    forall i | 0 <= i < |results| :: results[i].Read? ==> |results[i].data| <= BUFFER_SIZE
  }

  /** Whether the loop stops at this read: end of file (zero bytes) or an error. */
  predicate Stops(outcome: ReadOutcome) {
    outcome.ReadError? || outcome.data == []
  }

  /** The byte blocks the loop takes in: every read up to the first one that stops it. */
  function Delivered(results: seq<ReadOutcome>): (ds: seq<seq<uint8>>)
    ensures forall k | 0 <= k < |ds| :: ds[k] != []
  {
    if results == [] || Stops(results[0]) then [] else [results[0].data] + Delivered(results[1..])
  }

  /** Rust's `Utf8Error`: how far the input was valid. */
  datatype Utf8Error = Utf8Error(validUpTo: nat)

  /** Rust's `std::str::from_utf8`: accepts well-formed input, otherwise reports the longest valid prefix. */
  function FromUtf8(bytes: seq<uint8>): (r: Result<seq<uint8>, Utf8Error>)
    ensures r.Ok? <==> Utf8.WellFormed(bytes)
    ensures r.Ok? ==> r.value == bytes
    ensures r.Err? ==> var v := r.error.validUpTo;
              && v < |bytes|
              && Utf8.WellFormed(bytes[..v])
              && forall k | v < k <= |bytes| :: !Utf8.WellFormed(bytes[..k])
  {
    Utf8.LongestValidPrefix(bytes);
    Utf8.WellFormedIffValidUpToAll(bytes);
    if Utf8.WellFormed(bytes) then Ok(bytes) else Err(Utf8Error(Utf8.ValidUpTo(bytes)))
  }

  /** Where a chunk is split: all of it when it is well formed, else the end of its longest valid prefix. */
  function SplitPoint(chunk: seq<uint8>): (k: nat)
    ensures k == Utf8.ValidUpTo(chunk)
    ensures Utf8.WellFormed(chunk) <==> k == |chunk|
  {
    Utf8.WellFormedIffValidUpToAll(chunk);
    Utf8.LongestValidPrefix(chunk);
    match FromUtf8(chunk)
    case Ok(_) => |chunk|
    case Err(e) => e.validUpTo
  }

  /** The UTF-16 form of an already validated prefix: its scalar values, re-encoded. */
  function ToUtf16(valid: seq<uint8>): (ws: seq<uint16>)
    requires Utf8.WellFormed(valid)
    ensures Utf16.Decode(ws) == Some(Utf8.Decode(valid))
  {
    Utf16.DecodeEncode(Utf8.Decode(valid));
    Utf16.Encode(Utf8.Decode(valid))
  }

  /** What the loop has produced: the valid prefixes it emitted and the bytes it carries. */
  datatype Progress = Progress(emitted: seq<seq<uint8>>, leftover: seq<uint8>)

  /** The loop, round by round, from a given leftover. */
  function Convert(leftover: seq<uint8>, results: seq<ReadOutcome>): (p: Progress)
    ensures forall k | 0 <= k < |p.emitted| :: Utf8.WellFormed(p.emitted[k])
    decreases |results|
  {
    if results == [] || Stops(results[0]) then Progress([], leftover)
    else
      var chunk := leftover + results[0].data;
      var k := SplitPoint(chunk);
      Utf8.ValidUpToIsWellFormed(chunk);
      var rest := Convert(chunk[k..], results[1..]);
      Progress([chunk[..k]] + rest.emitted, rest.leftover)
  }

  /** Emitted prefixes put in front of a later part of the run. */
  function After(emitted: seq<seq<uint8>>, p: Progress): Progress {
    Progress(emitted + p.emitted, p.leftover)
  }

  /** One round of the loop on the read at position `i`. */
  lemma ConvertRound(emitted: seq<seq<uint8>>, leftover: seq<uint8>, results: seq<ReadOutcome>, i: nat)
    requires i < |results| && !Stops(results[i])
    ensures var chunk := leftover + results[i].data;
            var k := SplitPoint(chunk);
            After(emitted, Convert(leftover, results[i..]))
              == After(emitted + [chunk[..k]], Convert(chunk[k..], results[i + 1..]))
  {
    assert results[i..][1..] == results[i + 1..];
    var chunk := leftover + results[i].data;
    var k := SplitPoint(chunk);
    var rest := Convert(chunk[k..], results[i + 1..]);
    assert emitted + ([chunk[..k]] + rest.emitted) == (emitted + [chunk[..k]]) + rest.emitted;
  }

  /** Copies what one `read` delivers into the buffer, as `reader.read(&mut buffer)` does. */
  method ReadInto(buffer: array<uint8>, outcome: ReadOutcome) returns (r: Result<nat, IoError>)
    requires outcome.Read? ==> |outcome.data| <= buffer.Length
    modifies buffer
    ensures outcome.ReadError? ==> r.Err?
    ensures outcome.Read? ==> r == Ok(|outcome.data|) && buffer[..|outcome.data|] == outcome.data
  {
    if outcome.ReadError? {
      return Err(IoError);
    }
    var n := |outcome.data|;
    for j := 0 to n
      invariant forall m | 0 <= m < j :: buffer[m] == outcome.data[m]
    {
      buffer[j] := outcome.data[j];
    }
    r := Ok(n);
  }

  /**
    `convert_encoding`. Returns the result, the UTF-16 chunks it prints, the valid prefixes they
    come from and the bytes still left over when the loop ends.
   */
  method ConvertEncoding(file: OpenOutcome)
    returns (r: Result<(), IoError>, printed: seq<seq<uint16>>, emitted: seq<seq<uint8>>, unemitted: seq<uint8>)
    requires file.Opened? ==> FitsBuffer(file.results)
    ensures file.OpenFailed? ==> r.Err? && printed == [] && emitted == []
    ensures file.Opened? ==> r.Ok? && Convert([], file.results) == Progress(emitted, unemitted)
    ensures |printed| == |emitted|
    ensures forall k | 0 <= k < |emitted| :: Utf8.WellFormed(emitted[k]) && printed[k] == ToUtf16(emitted[k])
    ensures file.Opened? ==>
      var input := Concat(Delivered(file.results));
      && Concat(emitted) == input[..Utf8.ValidUpTo(input)]
      && unemitted == input[Utf8.ValidUpTo(input)..]
      && Utf8.WellFormed(Concat(emitted))
      && Concat(printed) == Utf16.Encode(Utf8.Decode(Concat(emitted)))
  {
    printed, emitted, unemitted := [], [], [];
    if file.OpenFailed? {
      return Err(IoError), printed, emitted, unemitted;
    }
    var results := file.results;
    var buffer := new uint8[BUFFER_SIZE];
    var leftover: seq<uint8> := [];
    var i := 0;
    assert results[0..] == results;
    while true
      invariant 0 <= i <= |results|
      invariant Convert([], results) == After(emitted, Convert(leftover, results[i..]))
      invariant |printed| == |emitted|
      invariant forall k | 0 <= k < |emitted| :: Utf8.WellFormed(emitted[k]) && printed[k] == ToUtf16(emitted[k])
      decreases |results| - i
    {
      var outcome := if i < |results| then results[i] else Read([]);
      var n := ReadInto(buffer, outcome);
      if n.Err? || n.value == 0 {
        break;
      }
      var chunk := leftover + buffer[..n.value];
      var validUpTo := SplitPoint(chunk);
      var valid, remaining := chunk[..validUpTo], chunk[validUpTo..];
      Utf8.ValidUpToIsWellFormed(chunk);
      ConvertRound(emitted, leftover, results, i);
      printed := printed + [ToUtf16(valid)];
      emitted := emitted + [valid];
      leftover := remaining;
      i := i + 1;
    }
    r, unemitted := Ok(()), leftover;
    assert emitted + [] == emitted;
    ConvertFacts(results, emitted, unemitted, printed);
  }

  /** What the whole run amounts to, stated on the input as one byte string. */
  lemma ConvertFacts(results: seq<ReadOutcome>, emitted: seq<seq<uint8>>, unemitted: seq<uint8>, printed: seq<seq<uint16>>)
    requires Convert([], results) == Progress(emitted, unemitted)
    requires |printed| == |emitted|
    requires forall k | 0 <= k < |emitted| :: Utf8.WellFormed(emitted[k]) && printed[k] == ToUtf16(emitted[k])
    ensures var input := Concat(Delivered(results));
      && Concat(emitted) == input[..Utf8.ValidUpTo(input)]
      && unemitted == input[Utf8.ValidUpTo(input)..]
      && Utf8.WellFormed(Concat(emitted))
      && Concat(printed) == Utf16.Encode(Utf8.Decode(Concat(emitted)))
  {
    var input := Concat(Delivered(results));
    var v := Utf8.ValidUpTo(input);
    assert Concat(emitted) == input[..v] && unemitted == input[v..] by {
      ConvertFromStart(results);
    }
    PrintedConcat(emitted, printed);
  }

  /** ConvertIsLongestPrefix for a run that starts with nothing carried. */
  lemma ConvertFromStart(results: seq<ReadOutcome>)
    ensures var input := Concat(Delivered(results));
            var p := Convert([], results);
            && Concat(p.emitted) == input[..Utf8.ValidUpTo(input)]
            && p.leftover == input[Utf8.ValidUpTo(input)..]
  {
    var input := Concat(Delivered(results));
    assert Utf8.ValidUpTo([]) == 0;
    ConvertIsLongestPrefix([], results);
    assert [] + input == input;
  }

  /**
    The loop is independent of how the reads cut the input: what it has emitted in all is the
    longest well-formed prefix of the leftover it started from followed by everything it read,
    and what it carries is the rest.
   */
  lemma {:induction false} ConvertIsLongestPrefix(leftover: seq<uint8>, results: seq<ReadOutcome>)
    requires Utf8.ValidUpTo(leftover) == 0
    ensures var input := leftover + Concat(Delivered(results));
            var p := Convert(leftover, results);
            && Concat(p.emitted) == input[..Utf8.ValidUpTo(input)]
            && p.leftover == input[Utf8.ValidUpTo(input)..]
    decreases |results|
  {
    if results == [] || Stops(results[0]) {
      ConvertStopped(leftover, results);
    } else {
      var chunk := leftover + results[0].data;
      var k := SplitPoint(chunk);
      var rest := chunk[k..];
      var tail := Concat(Delivered(results[1..]));
      var later := rest + tail;
      DeliveredFirst(results);
      PrefixSplit(chunk);
      Regroup(leftover, results[0].data, tail, k);
      ConvertIsLongestPrefix(rest, results[1..]);
      ConvertFirst(leftover, results);
      var q := Convert(rest, results[1..]);
      LongestPrefixStep(chunk[..k], later, q.emitted, q.leftover);
    }
  }

  /** Cutting the chunk anywhere and appending the later bytes to the second part regroups the same input. */
  lemma Regroup(leftover: seq<uint8>, data: seq<uint8>, tail: seq<uint8>, k: nat)
    requires k <= |leftover + data|
    ensures leftover + (data + tail) == (leftover + data)[..k] + ((leftover + data)[k..] + tail)
  {
    var chunk := leftover + data;
    assert chunk == chunk[..k] + chunk[k..];
  }

  /** The split point cuts a chunk into a well-formed prefix and a rest that starts with no complete character. */
  lemma PrefixSplit(chunk: seq<uint8>)
    ensures Utf8.WellFormed(chunk[..SplitPoint(chunk)])
    ensures Utf8.ValidUpTo(chunk[SplitPoint(chunk)..]) == 0
  {
    var k := SplitPoint(chunk);
    var valid, rest := chunk[..k], chunk[k..];
    Utf8.ValidUpToIsWellFormed(chunk);
    assert chunk == valid + rest;
    Utf8.ValidUpToAppend(valid, rest);
  }

  lemma ConvertStopped(leftover: seq<uint8>, results: seq<ReadOutcome>)
    requires Utf8.ValidUpTo(leftover) == 0
    requires results == [] || Stops(results[0])
    ensures var input := leftover + Concat(Delivered(results));
            var p := Convert(leftover, results);
            && Concat(p.emitted) == input[..Utf8.ValidUpTo(input)]
            && p.leftover == input[Utf8.ValidUpTo(input)..]
  {
    assert Delivered(results) == [] && Concat(Delivered(results)) == [];
    assert leftover + [] == leftover;
  }

  /** The inductive step of ConvertIsLongestPrefix: a well-formed prefix put in front of a later run. */
  lemma LongestPrefixStep(valid: seq<uint8>, later: seq<uint8>, emitted: seq<seq<uint8>>, leftover: seq<uint8>)
    requires Utf8.WellFormed(valid)
    requires Concat(emitted) == later[..Utf8.ValidUpTo(later)] && leftover == later[Utf8.ValidUpTo(later)..]
    ensures var input := valid + later;
            && Concat([valid] + emitted) == input[..Utf8.ValidUpTo(input)]
            && leftover == input[Utf8.ValidUpTo(input)..]
  {
    var v := Utf8.ValidUpTo(later);
    Utf8.ValidUpToAppend(valid, later);
    SliceAppend(valid, later, v);
    assert ([valid] + emitted)[1..] == emitted;
  }

  lemma DeliveredFirst(results: seq<ReadOutcome>)
    requires results != [] && !Stops(results[0])
    ensures Concat(Delivered(results)) == results[0].data + Concat(Delivered(results[1..]))
  {
    assert Delivered(results) == [results[0].data] + Delivered(results[1..]);
    assert ([results[0].data] + Delivered(results[1..]))[1..] == Delivered(results[1..]);
  }

  lemma ConvertFirst(leftover: seq<uint8>, results: seq<ReadOutcome>)
    requires results != [] && !Stops(results[0])
    ensures var chunk := leftover + results[0].data;
            var k := SplitPoint(chunk);
            var q := Convert(chunk[k..], results[1..]);
            Convert(leftover, results) == Progress([chunk[..k]] + q.emitted, q.leftover)
  {
  }

  lemma SliceAppend<T>(a: seq<T>, b: seq<T>, v: nat)
    requires v <= |b|
    ensures (a + b)[..|a| + v] == a + b[..v]
    ensures (a + b)[|a| + v..] == b[v..]
  {
  }

  /** Nothing is lost or duplicated: emitted prefixes followed by the leftover are exactly the bytes read. */
  lemma ConvertConserves(results: seq<ReadOutcome>)
    ensures var p := Convert([], results);
            Concat(p.emitted) + p.leftover == Concat(Delivered(results))
  {
    var p := Convert([], results);
    var input := Concat(Delivered(results));
    var v := Utf8.ValidUpTo(input);
    assert Concat(p.emitted) == input[..v] && p.leftover == input[v..] by {
      ConvertFromStart(results);
    }
    assert input[..v] + input[v..] == input;
  }

  /**
    A well-formed file is emitted completely, whatever the read sizes: no bytes are left over. A
    character split across two reads is therefore never half-emitted.
   */
  lemma WellFormedFileFullyConverted(results: seq<ReadOutcome>)
    requires Utf8.WellFormed(Concat(Delivered(results)))
    ensures var p := Convert([], results);
            && p.leftover == []
            && Concat(p.emitted) == Concat(Delivered(results))
  {
    var input := Concat(Delivered(results));
    Utf8.WellFormedIffValidUpToAll(input);
    ConvertFromStart(results);
    assert input[..|input|] == input;
  }

  /** The printed chunks, one after the other, are the UTF-16 encoding of the emitted bytes. */
  lemma {:induction false} PrintedConcat(emitted: seq<seq<uint8>>, printed: seq<seq<uint16>>)
    requires |printed| == |emitted|
    requires forall k | 0 <= k < |emitted| :: Utf8.WellFormed(emitted[k]) && printed[k] == ToUtf16(emitted[k])
    ensures Utf8.WellFormed(Concat(emitted))
    ensures Concat(printed) == Utf16.Encode(Utf8.Decode(Concat(emitted)))
  {
    if emitted != [] {
      PrintedConcat(emitted[1..], printed[1..]);
      Utf8.DecodeAppend(emitted[0], Concat(emitted[1..]));
      Utf16.EncodeAppend(Utf8.Decode(emitted[0]), Utf8.Decode(Concat(emitted[1..])));
    }
  }

  /** A leftover no further bytes can turn into a character: it starts with an ill-formed sequence. */
  ghost predicate IllFormedStart(leftover: seq<uint8>) {
    leftover != [] && forall more: seq<uint8> :: Utf8.CharLength(leftover + more) == 0
  }

  /** At least four bytes that do not form a character already start ill-formed. */
  lemma IllFormedOnceFourBytes(leftover: seq<uint8>)
    requires |leftover| >= 4 && Utf8.CharLength(leftover) == 0
    ensures IllFormedStart(leftover)
  {
    forall more: seq<uint8> ensures Utf8.CharLength(leftover + more) == 0 {
      var t := leftover + more;
      if Utf8.CharLength(t) > 0 {
        var n := Utf8.CharLength(t);
        assert leftover[..n] == t[..n];
        Utf8.CharLengthExtend(t, leftover);
        assert false;
      }
    }
  }

  /** A byte that no character may start with (a continuation byte, C0, C1 or F5 to FF) starts ill-formed. */
  lemma IllFormedLead(leftover: seq<uint8>)
    requires leftover != [] && Utf8.SequenceLength(leftover[0]) == 0
    ensures IllFormedStart(leftover)
  {
    forall more: seq<uint8> ensures Utf8.CharLength(leftover + more) == 0 {
      assert (leftover + more)[0] == leftover[0];
    }
  }

  /**
    A leftover that can still grow into a character: its lead byte starts a character longer than
    the leftover, and every byte after the lead lies in the range the grammar allows there.
   */
  predicate Truncated(leftover: seq<uint8>) {
    && leftover != []
    && |leftover| < Utf8.SequenceLength(leftover[0])
    && (|leftover| >= 2 ==> Utf8.SecondLow(leftover[0]) <= leftover[1] <= Utf8.SecondHigh(leftover[0]))
    && forall j | 2 <= j < |leftover| :: Utf8.IsTail(leftover[j])
  }

  /**
    Every leftover that starts no character and is not a truncated one starts ill-formed: a bad
    lead byte, a second byte out of its range (E0 80, say) or a later byte that is no continuation.
   */
  lemma IllFormedUnlessTruncated(leftover: seq<uint8>)
    requires leftover != [] && Utf8.CharLength(leftover) == 0 && !Truncated(leftover)
    ensures IllFormedStart(leftover)
  {
    forall more: seq<uint8> ensures Utf8.CharLength(leftover + more) == 0 {
      NoCharAfterExtension(leftover, more);
    }
  }

  lemma NoCharAfterExtension(leftover: seq<uint8>, more: seq<uint8>)
    requires leftover != [] && Utf8.CharLength(leftover) == 0 && !Truncated(leftover)
    ensures Utf8.CharLength(leftover + more) == 0
  {
    var t := leftover + more;
    var n := Utf8.SequenceLength(leftover[0]);
    assert t[0] == leftover[0];
    if n <= |leftover| {
      if n > 0 {
        assert leftover[..n] == t[..n];
        if Utf8.CharLength(t) > 0 {
          Utf8.CharLengthExtend(t, leftover);
        }
      }
    } else {
      assert forall j | 0 <= j < |leftover| :: t[j] == leftover[j];
    }
  }

  /** A truncated leftover is completed by suitable further bytes, so it never starts ill-formed. */
  lemma TruncatedCanComplete(leftover: seq<uint8>)
    requires Truncated(leftover)
    ensures !IllFormedStart(leftover)
  {
    var n := Utf8.SequenceLength(leftover[0]);
    var second: seq<uint8> := if |leftover| == 1 then [Utf8.SecondLow(leftover[0])] else [];
    var more := second + seq(n - |leftover| - |second|, _ => 0x80);
    var t := leftover + more;
    assert t[0] == leftover[0] && |t| == n;
    assert Utf8.CharLength(t) == n;
  }

  /** The leftovers that can never start a character are exactly the non-empty, non-truncated ones that start none now. */
  lemma IllFormedStartExactly(leftover: seq<uint8>)
    ensures IllFormedStart(leftover) <==>
              leftover != [] && Utf8.CharLength(leftover) == 0 && !Truncated(leftover)
  {
    if IllFormedStart(leftover) {
      assert Utf8.CharLength(leftover + []) == 0;
      assert leftover + [] == leftover;
      if Truncated(leftover) {
        TruncatedCanComplete(leftover);
      }
    } else if leftover != [] && Utf8.CharLength(leftover) == 0 && !Truncated(leftover) {
      IllFormedUnlessTruncated(leftover);
    }
  }

  lemma {:induction false} ConcatEmpty<T>(ss: seq<seq<T>>)
    requires Concat(ss) == []
    ensures forall k | 0 <= k < |ss| :: ss[k] == []
  {
    if ss != [] {
      ConcatEmpty(ss[1..]);
      forall k | 1 <= k < |ss| ensures ss[k] == [] {
        assert ss[k] == ss[1..][k - 1];
      }
    }
  }

  /**
    Once the leftover starts with an ill-formed sequence, every later split point is 0: nothing
    more is emitted and the leftover only grows by what is read.
   */
  lemma ConvertStuck(leftover: seq<uint8>, results: seq<ReadOutcome>)
    requires IllFormedStart(leftover)
    ensures var p := Convert(leftover, results);
            && (forall k | 0 <= k < |p.emitted| :: p.emitted[k] == [])
            && p.leftover == leftover + Concat(Delivered(results))
  {
    var input := leftover + Concat(Delivered(results));
    assert Utf8.CharLength(leftover + []) == 0;
    assert leftover + [] == leftover;
    assert Utf8.CharLength(input) == 0;
    ConvertIsLongestPrefix(leftover, results);
    ConcatEmpty(Convert(leftover, results).emitted);
  }

  /** The euro sign E2 82 AC cut after its second byte is carried and emitted whole in the next round. */
  lemma SplitCharacterCarried()
    ensures Convert([], [Read([0x41, 0xE2, 0x82]), Read([0xAC])])
         == Progress([[0x41], [0xE2, 0x82, 0xAC]], [])
  {
    var results := [Read([0x41, 0xE2, 0x82]), Read([0xAC])];
    var first: seq<uint8> := [0x41, 0xE2, 0x82];
    assert Utf8.CharLength(first) == 1;
    assert first[1..] == [0xE2, 0x82];
    assert Utf8.CharLength([0xE2, 0x82]) == 0;
    assert SplitPoint(first) == 1;
    assert [] + first == first;
    assert first[..1] == [0x41] && first[1..] == [0xE2, 0x82];
    var second: seq<uint8> := [0xE2, 0x82] + [0xAC];
    assert second == [0xE2, 0x82, 0xAC];
    assert Utf8.CharLength(second) == 3;
    assert second[3..] == [];
    assert SplitPoint(second) == 3;
    assert second[..3] == second && second[3..] == [];
    assert results[1..] == [Read([0xAC])];
    assert results[1..][1..] == [];
    assert Convert([], results[1..][1..]) == Progress([], []);
    assert Convert([0xE2, 0x82], results[1..]) == Progress([second], []);
    assert Convert([], results) == Progress([[0x41]] + [second], []);
  }
}
