/** The websocket side of the telemetry bridge: recognising a Socket.IO event
    frame and cutting the JSON payload out of it (`hasData` and the `"42"`
    gate of the message handler in src/main.cpp).

    The `std::string` searches the C++ code relies on (`find`,
    `find_first_of`, `rfind`, `substr`) are modelled as functions whose
    contracts say which index they return; `std::string::npos` is `None`. */
module Frames {

  datatype Option<T> = None | Some(value: T)

  /** `size_t` is 64 bits wide: unsigned index arithmetic wraps modulo this. */
  const SizeModulus: int := 0x1_0000_0000_0000_0000

  /** The text `p` occurs in `s` starting at index `i`. */
  predicate OccursAt(s: string, p: string, i: int) {
    0 <= i && i + |p| <= |s| && s[i..i + |p|] == p
  }

  ghost predicate Contains(s: string, p: string) {
    exists i :: OccursAt(s, p, i)
  }

  /** `i` is the index of the first `c` in `s`. */
  predicate IsFirstOf(s: string, c: char, i: int) {
    0 <= i < |s| && s[i] == c && forall k :: 0 <= k < i ==> s[k] != c
  }

  /** `j` is the starting index of the last occurrence of `p` in `s`. */
  ghost predicate IsLastOccurrence(s: string, p: string, j: int) {
    OccursAt(s, p, j) && forall k :: j < k ==> !OccursAt(s, p, k)
  }

  /** `std::string::find(p, from)`: the lowest index at or after `from` where `p` occurs. */
  function FindFrom(s: string, p: string, from: nat): (r: Option<nat>)
    decreases |s| - from
    ensures r.Some? ==> from <= r.value && OccursAt(s, p, r.value)
    ensures r.Some? ==> forall k :: from <= k < r.value ==> !OccursAt(s, p, k)
    ensures r.None? ==> forall k :: from <= k ==> !OccursAt(s, p, k)
  {
    if from + |p| > |s| then None
    else if s[from..from + |p|] == p then Some(from)
    else FindFrom(s, p, from + 1)
  }

  /** `std::string::find(p)`. */
  function Find(s: string, p: string): (r: Option<nat>)
    ensures r.None? <==> !Contains(s, p)
    ensures r.Some? ==> OccursAt(s, p, r.value) && forall k :: 0 <= k < r.value ==> !OccursAt(s, p, k)
  {
    FindFrom(s, p, 0)
  }

  /** `std::string::find_first_of(chars, from)`: the lowest index at or after
      `from` holding any of the characters of `chars`. */
  function FindFirstOfFrom(s: string, chars: string, from: nat): (r: Option<nat>)
    decreases |s| - from
    ensures r.Some? ==> from <= r.value < |s| && s[r.value] in chars
    ensures r.Some? ==> forall k :: from <= k < r.value ==> s[k] !in chars
    ensures r.None? ==> forall k :: from <= k < |s| ==> s[k] !in chars
  {
    if from >= |s| then None
    else if s[from] in chars then Some(from)
    else FindFirstOfFrom(s, chars, from + 1)
  }

  /** `std::string::find_first_of(chars)`. */
  function FindFirstOf(s: string, chars: string): (r: Option<nat>)
    ensures r.Some? ==> r.value < |s| && s[r.value] in chars
    ensures r.Some? ==> forall k :: 0 <= k < r.value ==> s[k] !in chars
    ensures r.None? ==> forall k :: 0 <= k < |s| ==> s[k] !in chars
  {
    FindFirstOfFrom(s, chars, 0)
  }

  /** The highest index below `n` where `p` occurs. */
  function RFindBelow(s: string, p: string, n: nat): (r: Option<nat>)
    ensures r.Some? ==> r.value < n && OccursAt(s, p, r.value)
    ensures r.Some? ==> forall k :: r.value < k < n ==> !OccursAt(s, p, k)
    ensures r.None? ==> forall k :: 0 <= k < n ==> !OccursAt(s, p, k)
  {
    if n == 0 then None
    else if OccursAt(s, p, n - 1) then Some(n - 1)
    else RFindBelow(s, p, n - 1)
  }

  /** `std::string::rfind(p)`: the starting index of the last occurrence of `p`. */
  function RFind(s: string, p: string): (r: Option<nat>)
    ensures r.None? <==> !Contains(s, p)
    ensures r.Some? ==> IsLastOccurrence(s, p, r.value)
  {
    RFindBelow(s, p, |s| + 1)
  }

  function Min(a: int, b: int): int {
    if a <= b then a else b
  }

  /** `std::string::substr(pos, count)`: at most `count` characters from `pos`. */
  function Substr(s: string, pos: nat, count: nat): string
    requires pos <= |s|
  {
    s[pos..pos + Min(count, |s| - pos)]
  }

  /** `hasData` as written: a frame mentioning `null` has no data; otherwise
      the text from the first `[` through the last `}]`, the length being
      computed in wrapping `size_t` arithmetic. */
  function HasData(s: string): (r: string)
    ensures Contains(s, "null") ==> r == ""
    ensures r != "" ==> !Contains(s, "null") && r[0] == '[' && exists k :: OccursAt(s, r, k)
  {
    var foundNull := Find(s, "null");
    var b1 := FindFirstOf(s, "[");
    var b2 := RFind(s, "}]");
    if foundNull.Some? then ""
    else if b1.Some? && b2.Some? then
      var r := Substr(s, b1.value, (b2.value - b1.value + 2) % SizeModulus);
      assert r != "" ==> OccursAt(s, r, b1.value);
      r
    else ""
  }

  /** Both markers are present and the last `}]` starts before the first `[`. */
  ghost predicate MarkersReversed(s: string) {
    exists i, j :: IsFirstOf(s, '[', i) && IsLastOccurrence(s, "}]", j) && j < i
  }

  /** The first `[` and the last `}]` cannot overlap: the one starts with `[`,
      the other with `}` followed by `]`. */
  lemma MarkersApart(s: string, i: int, j: int)
    requires IsFirstOf(s, '[', i) && IsLastOccurrence(s, "}]", j)
    ensures i < j || j + 2 <= i
  {
    assert s[j] == s[j..j + 2][0] == '}';
    assert s[j + 1] == s[j..j + 2][1] == ']';
  }

  /** The index `FindFirstOf(s, "[")` returns is the first `[`. */
  lemma FindFirstOfBracket(s: string, i: int)
    requires IsFirstOf(s, '[', i)
    ensures FindFirstOf(s, "[") == Some(i)
  {
    var r := FindFirstOf(s, "[");
    assert s[i] in "[";
    assert r.Some? && s[r.value] == '[';
  }

  /** The index `RFind(s, p)` returns is the last occurrence of `p`. */
  lemma RFindLast(s: string, p: string, j: int)
    requires IsLastOccurrence(s, p, j)
    ensures RFind(s, p) == Some(j)
  {
    assert Contains(s, p) by { assert OccursAt(s, p, j); }
    assert OccursAt(s, p, RFind(s, p).value);
  }

  /** Without a `[`, or without a `}]`, `hasData` finds no data. */
  lemma HasDataMissingMarker(s: string)
    requires !Contains(s, "}]") || forall k :: 0 <= k < |s| ==> s[k] != '['
    ensures HasData(s) == ""
  {
    var b1 := FindFirstOf(s, "[");
    if b1.Some? {
      assert s[b1.value] == '[';
    }
  }

  /** The usual case: no `null`, and the last `}]` after the first `[` gives
      exactly the text from that `[` through that `}]`. */
  lemma HasDataBetween(s: string, i: int, j: int)
    requires |s| < SizeModulus
    requires !Contains(s, "null")
    requires IsFirstOf(s, '[', i) && IsLastOccurrence(s, "}]", j) && i < j
    ensures 0 <= i < j + 2 <= |s| && HasData(s) == s[i..j + 2]
    ensures HasData(s)[0] == '[' && HasData(s)[|HasData(s)| - 2..] == "}]"
  {
    FindFirstOfBracket(s, i);
    RFindLast(s, "}]", j);
    HasDataFound(s, i, j);
    assert OccursAt(s, "}]", j);
    SmallModulus(j - i + 2);
    assert s[i..j + 2][j - i..] == s[j..j + 2];
  }

  /** `hasData` on a frame with no `null` whose markers are at `i` and `j`. */
  lemma HasDataFound(s: string, i: nat, j: nat)
    requires !Contains(s, "null")
    requires FindFirstOf(s, "[") == Some(i) && RFind(s, "}]") == Some(j)
    ensures i <= |s| && HasData(s) == Substr(s, i, (j - i + 2) % SizeModulus)
  {
  }

  lemma WrappedModulus(a: int)
    requires -SizeModulus <= a < 0
    ensures a % SizeModulus == SizeModulus + a
  {
  }

  lemma SmallModulus(a: int)
    requires 0 <= a < SizeModulus
    ensures a % SizeModulus == a
  {
  }

  /** When the last `}]` precedes the first `[`, the unsigned length
      `b2 - b1 + 2` wraps: right before the `[` it is zero and `hasData` gives
      `""`; further before it is huge, `substr` clamps it, and `hasData` gives
      the whole tail from the `[`. */
  lemma HasDataReversed(s: string, i: int, j: int)
    requires |s| < SizeModulus
    requires !Contains(s, "null")
    requires IsFirstOf(s, '[', i) && IsLastOccurrence(s, "}]", j) && j < i
    ensures j + 2 <= i
    ensures j + 2 == i ==> HasData(s) == ""
    ensures j + 2 < i ==> HasData(s) == s[i..]
  {
    MarkersApart(s, i, j);
    FindFirstOfBracket(s, i);
    RFindLast(s, "}]", j);
    HasDataFound(s, i, j);
    if j + 2 < i {
      WrappedModulus(j - i + 2);
    }
  }

  /** `hasData` with the evident intent: data only when no `null` occurs and
      the last `}]` comes after the first `[`. */
  function ExtractPayload(s: string): (r: string)
    ensures Contains(s, "null") ==> r == ""
    ensures r != "" ==> !Contains(s, "null") && |r| >= 3 && r[0] == '['
    ensures r != "" ==> r[|r| - 2..] == "}]" && exists k :: OccursAt(s, r, k)
  {
    var b1 := FindFirstOf(s, "[");
    var b2 := RFind(s, "}]");
    if Find(s, "null").Some? then ""
    else if b1.Some? && b2.Some? && b1.value < b2.value then
      assert OccursAt(s, "}]", b2.value);
      assert s[b1.value..b2.value + 2][b2.value - b1.value..] == s[b2.value..b2.value + 2];
      assert OccursAt(s, s[b1.value..b2.value + 2], b1.value);
      s[b1.value..b2.value + 2]
    else ""
  }

  /** The payload is present exactly when there is no `null` and the last
      `}]` follows the first `[`; it is then the text between them. */
  lemma ExtractPayloadSpec(s: string)
    ensures ExtractPayload(s) != "" <==>
              !Contains(s, "null") &&
              exists i, j :: IsFirstOf(s, '[', i) && IsLastOccurrence(s, "}]", j) && i < j
    ensures forall i, j :: IsFirstOf(s, '[', i) && IsLastOccurrence(s, "}]", j) && i < j && !Contains(s, "null") ==>
              ExtractPayload(s) == s[i..j + 2]
  {
    var b1 := FindFirstOf(s, "[");
    var b2 := RFind(s, "}]");
    forall i, j | IsFirstOf(s, '[', i) && IsLastOccurrence(s, "}]", j)
      ensures b1 == Some(i) && b2 == Some(j)
    {
      FindFirstOfBracket(s, i);
      RFindLast(s, "}]", j);
    }
    if ExtractPayload(s) != "" {
      assert s[b1.value] == '[';
      assert IsFirstOf(s, '[', b1.value);
    }
  }

  /** Outside the reversed-marker case the corrected extraction agrees with
      `hasData` as written. */
  lemma ExtractPayloadAgrees(s: string)
    requires |s| < SizeModulus
    requires !MarkersReversed(s)
    ensures ExtractPayload(s) == HasData(s)
  {
    var b1 := FindFirstOf(s, "[");
    var b2 := RFind(s, "}]");
    if Find(s, "null").None? && b1.Some? && b2.Some? {
      assert s[b1.value] == '[';
      assert IsFirstOf(s, '[', b1.value);
      MarkersApart(s, b1.value, b2.value);
      HasDataBetween(s, b1.value, b2.value);
    }
  }

  /** A frame whose `}]` precedes its `[`: `hasData` as written hands the
      tail `[1]`, which does not end in `}]`, on to the JSON parser, where the
      intended extraction finds no data. */
  lemma HasDataTailCounterexample()
    ensures HasData("42}]x[1]") == "[1]"
    ensures ExtractPayload("42}]x[1]") == ""
  {
    var s := "42}]x[1]";
    assert !Contains(s, "null") by {
      forall i | 0 <= i ensures !OccursAt(s, "null", i) {
        if i + 4 <= |s| {
          assert s[i..i + 4][0] == s[i] != 'n';
        }
      }
    }
    assert IsFirstOf(s, '[', 5);
    assert IsLastOccurrence(s, "}]", 2) by {
      assert OccursAt(s, "}]", 2);
      forall k | 2 < k ensures !OccursAt(s, "}]", k) {
        if k + 2 <= |s| {
          assert s[k..k + 2][0] == s[k] != '}';
        }
      }
    }
    HasDataReversed(s, 5, 2);
    assert s[5..] == "[1]";
    FindFirstOfBracket(s, 5);
    RFindLast(s, "}]", 2);
  }

  /** Socket.IO: a message event frame is longer than two characters and
      starts with `4` (message) followed by `2` (event). */
  predicate IsEventFrame(frame: string) {
    |frame| > 2 && frame[0] == '4' && frame[1] == '2'
  }

  /** What the message handler does with one frame. */
  datatype Reply =
    | NoReply                   // not an event frame: nothing is sent
    | ManualReply               // an event without data: `42["manual",{}]` is sent
    | Parse(payload: string)    // the payload goes to the JSON parser

  const ManualMessage: string := "42[\"manual\",{}]"

  /** The handler's decision on one frame exactly as written: the payload is
      whatever `hasData` returns. */
  function DispatchAsWritten(frame: string): (r: Reply)
    ensures r == NoReply <==> !IsEventFrame(frame)
    ensures r == ManualReply <==> IsEventFrame(frame) && HasData(frame) == ""
    ensures r.Parse? ==> frame[..2] == "42" && r.payload == HasData(frame) != "" && r.payload[0] == '['
  {
    if IsEventFrame(frame) then
      var payload := HasData(frame);
      if payload != "" then Parse(payload) else ManualReply
    else NoReply
  }

  /** The handler's decision on one frame, with the corrected extraction. */
  function Dispatch(frame: string): (r: Reply)
    ensures r == NoReply <==> !IsEventFrame(frame)
    ensures r == ManualReply <==> IsEventFrame(frame) && ExtractPayload(frame) == ""
    ensures r.Parse? ==> frame[..2] == "42" && r.payload == ExtractPayload(frame) != ""
  {
    if IsEventFrame(frame) then
      var payload := ExtractPayload(frame);
      if payload != "" then Parse(payload) else ManualReply
    else NoReply
  }

  /** The corrected handler decides every frame as the handler as written
      does, except those whose last `}]` precedes their first `[`. */
  lemma DispatchAgrees(frame: string)
    requires |frame| < SizeModulus
    requires !MarkersReversed(frame)
    ensures Dispatch(frame) == DispatchAsWritten(frame)
  {
    ExtractPayloadAgrees(frame);
  }

  /** On the frame `42}]x[1]` the handler as written passes `[1]` to the JSON
      parser, where the corrected handler sends the manual-driving reply. */
  lemma DispatchTailCounterexample()
    ensures DispatchAsWritten("42}]x[1]") == Parse("[1]")
    ensures Dispatch("42}]x[1]") == ManualReply
  {
    HasDataTailCounterexample();
  }
}
