/** The `BodyTracking` snapshot class (BodyTracking.h, BodyTracking.cpp) and its
    `JSONOut` serializer. */
module Tracking {
  import opened Kinect
  import opened Decimal

  /** The fields of `BodyPosition` that the capture loop assigns. BodyPosition.h is not
      part of this model, so its id is taken to have the width of the body id it copies. */
  datatype BodyPosition = BodyPosition(id: uint32, x: real, y: real, z: real)

  /** One cycle's snapshot. `time` is private in the class and has no setter, so no
      operation here produces a snapshot with a different time from its input;
      `bodies` is an ordered list that allows repeated ids. */
  datatype BodyTracking = BodyTracking(time: int64, bodies: seq<BodyPosition>)

  /** `BodyTracking()`: the clock reading `std::time(0)` is passed in. */
  function New(clock: int64): BodyTracking {
    BodyTracking(clock, [])
  }

  /** `bodies.push_back(b)`. */
  function PushBack(bt: BodyTracking, b: BodyPosition): BodyTracking {
    bt.(bodies := bt.bodies + [b])
  }

  /** Pushes `bs` one after the other, as a sequence of `push_back` calls does. */
  function PushAll(bt: BodyTracking, bs: seq<BodyPosition>): BodyTracking
    decreases |bs|
  {
    if |bs| == 0 then bt else PushAll(PushBack(bt, bs[0]), bs[1..])
  }

  /** Appending keeps the timestamp and the insertion order, and filters nothing. */
  lemma {:induction false} PushAllAppends(bt: BodyTracking, bs: seq<BodyPosition>)
    ensures PushAll(bt, bs).time == bt.time
    ensures PushAll(bt, bs).bodies == bt.bodies + bs
    decreases |bs|
  {
    if |bs| > 0 {
      PushAllAppends(PushBack(bt, bs[0]), bs[1..]);
      assert bt.bodies + [bs[0]] + bs[1..] == bt.bodies + bs;
    }
  }

  /** A snapshot built from the constructor holds exactly what was pushed, ids repeated or not. */
  lemma PushAllFromNew(clock: int64, bs: seq<BodyPosition>)
    ensures PushAll(New(clock), bs) == BodyTracking(clock, bs)
  {
    PushAllAppends(New(clock), bs);
  }

  // ---------------------------------------------------------------------------
  // Serialization

  const TimestampField: string := "{\"timestamp\": "
  const BodiesField: string := ", \"bodies\": "

  /** Everything `JSONOut` writes before the bodies array. */
  function Header(t: int64): string {
    TimestampField + IntToString(t as int) + BodiesField
  }

  /** The element texts, one `BodyPosition::JSONOut` result per body, in list order. The
      element serializer is not part of this model and is the parameter `elem`. */
  function Elements(bodies: seq<BodyPosition>, elem: BodyPosition -> string): seq<string> {
    seq(|bodies|, i requires 0 <= i < |bodies| => elem(bodies[i]))
  }

  /** What the loop of `JSONOut` appends: every element text followed by a comma. */
  function CommaTerminated(texts: seq<string>): string
    decreases |texts|
  {
    if |texts| == 0 then "" else CommaTerminated(texts[..|texts| - 1]) + texts[|texts| - 1] + ","
  }

  /** The texts with `sep` between neighbours and nowhere else. */
  function Join(texts: seq<string>, sep: string): string
    decreases |texts|
  {
    if |texts| == 0 then ""
    else if |texts| == 1 then texts[0]
    else texts[0] + sep + Join(texts[1..], sep)
  }

  function SumLengths(texts: seq<string>): nat
    decreases |texts|
  {
    if |texts| == 0 then 0 else |texts[0]| + SumLengths(texts[1..])
  }

  predicate StartsWith(s: string, prefix: string) {
    |prefix| <= |s| && s[..|prefix|] == prefix
  }

  predicate EndsWith(s: string, suffix: string) {
    |suffix| <= |s| && s[|s| - |suffix|..] == suffix
  }

  /** The shape `{"timestamp": T, "bodies": [ ... ]}`: the bodies value opens with `[`
      and the document closes with `]}`. */
  predicate HasArrayBodies(doc: string, t: int64) {
    && StartsWith(doc, Header(t) + "[")
    && |doc| >= |Header(t)| + 3
    && EndsWith(doc, "]}")
  }

  /** `BodyTracking::JSONOut` as written: open the array, append each element and a comma,
      `pop_back` the last character, close with `]}`. */
  function JSONOut(bt: BodyTracking, elem: BodyPosition -> string): (json: string)
    ensures StartsWith(json, Header(bt.time))
    ensures EndsWith(json, "]}")
  {
    var start := Header(bt.time) + "[";
    var written := start + CommaTerminated(Elements(bt.bodies, elem));
    assert written[..|written| - 1][..|Header(bt.time)|] == Header(bt.time);
    written[..|written| - 1] + "]}"
  }

  /** The serializer with the empty list checked first, so that no structural character is
      ever stripped: `[`, the elements joined by commas, `]}`. */
  function JSONOutIntended(bt: BodyTracking, elem: BodyPosition -> string): (json: string)
    ensures HasArrayBodies(json, bt.time)
    ensures |bt.bodies| == 0 ==> json == Header(bt.time) + "[]}"
  {
    var json := Header(bt.time) + "[" + Join(Elements(bt.bodies, elem), ",") + "]}";
    assert json[..|Header(bt.time) + "["|] == Header(bt.time) + "[";
    json
  }

  // ---------------------------------------------------------------------------
  // Properties of the join-then-strip idiom

  /** Joining with one more text adds one separator and the text at the end. */
  lemma {:induction false} JoinSnoc(texts: seq<string>, last: string, sep: string)
    requires |texts| > 0
    ensures Join(texts + [last], sep) == Join(texts, sep) + sep + last
    decreases |texts|
  {
    var all := texts + [last];
    if |texts| == 1 {
      assert all[1..] == [last];
    } else {
      assert all[1..] == texts[1..] + [last];
      JoinSnoc(texts[1..], last, sep);
    }
  }

  /** For at least one element, appending a comma after each element equals joining with
      commas and adding a single trailing comma. */
  lemma {:induction false} CommaTerminatedIsJoinPlusComma(texts: seq<string>)
    requires |texts| > 0
    ensures CommaTerminated(texts) == Join(texts, ",") + ","
    decreases |texts|
  {
    var front := texts[..|texts| - 1];
    var last := texts[|texts| - 1];
    if |texts| == 1 {
      assert CommaTerminated(front) == "";
    } else {
      CommaTerminatedIsJoinPlusComma(front);
      JoinSnoc(front, last, ",");
      assert front + [last] == texts;
    }
  }

  /** `n` texts joined hold their own characters plus exactly `n - 1` separators. */
  lemma {:induction false} JoinLength(texts: seq<string>, sep: string)
    ensures |texts| > 0 ==> |Join(texts, sep)| == SumLengths(texts) + (|texts| - 1) * |sep|
    ensures |texts| == 0 ==> Join(texts, sep) == ""
    decreases |texts|
  {
    if |texts| > 1 {
      JoinLength(texts[1..], sep);
      assert SumLengths(texts) == |texts[0]| + SumLengths(texts[1..]);
    } else if |texts| == 1 {
      assert SumLengths(texts[1..]) == 0;
    }
  }

  /** The joined text starts with the first element and ends with the last: no separator
      leads or trails. */
  lemma {:induction false} JoinEnds(texts: seq<string>, sep: string)
    requires |texts| > 0
    ensures StartsWith(Join(texts, sep), texts[0])
    ensures EndsWith(Join(texts, sep), texts[|texts| - 1])
    decreases |texts|
  {
    if |texts| > 1 {
      JoinEnds(texts[1..], sep);
      var rest := Join(texts[1..], sep);
      var j := texts[0] + sep + rest;
      assert j[|j| - |texts[|texts| - 1]|..] == rest[|rest| - |texts[|texts| - 1]|..];
    }
  }

  /** For one body or more, the as-written serializer produces the header, `[`, the element
      texts in list order separated by single commas, and `]}`. */
  lemma JSONOutNonEmpty(bt: BodyTracking, elem: BodyPosition -> string)
    requires |bt.bodies| > 0
    ensures JSONOut(bt, elem) == Header(bt.time) + "[" + Join(Elements(bt.bodies, elem), ",") + "]}"
    ensures JSONOut(bt, elem) == JSONOutIntended(bt, elem)
  {
    var texts := Elements(bt.bodies, elem);
    CommaTerminatedIsJoinPlusComma(texts);
    var start := Header(bt.time) + "[";
    var written := start + CommaTerminated(texts);
    assert written == start + Join(texts, ",") + ",";
    assert written[..|written| - 1] == start + Join(texts, ",");
  }

  /** With no bodies, `pop_back` removes the `[` itself: the result is the header followed
      directly by `]}`, which has no array. */
  lemma JSONOutEmpty(bt: BodyTracking, elem: BodyPosition -> string)
    requires |bt.bodies| == 0
    ensures JSONOut(bt, elem) == Header(bt.time) + "]}"
    ensures !HasArrayBodies(JSONOut(bt, elem), bt.time)
  {
    var h := Header(bt.time);
    assert Elements(bt.bodies, elem) == [];
    var written := h + "[";
    assert written[..|written| - 1] == h;
    var json := h + "]}";
    assert json[|h|] == ']';
    assert (h + "[")[|h|] == '[';
  }

  /** The as-written serializer is well shaped exactly when the list is non-empty. */
  lemma JSONOutWellShapedIff(bt: BodyTracking, elem: BodyPosition -> string)
    ensures HasArrayBodies(JSONOut(bt, elem), bt.time) <==> |bt.bodies| > 0
  {
    if |bt.bodies| > 0 {
      JSONOutNonEmpty(bt, elem);
    } else {
      JSONOutEmpty(bt, elem);
    }
  }

  /** Concrete witness: the empty snapshot at time 0 renders as `{"timestamp": 0, "bodies": ]}`. */
  lemma EmptySnapshotIsMalformed(elem: BodyPosition -> string)
    ensures JSONOut(New(0), elem) == "{\"timestamp\": 0, \"bodies\": ]}"
    ensures JSONOut(New(0), elem) != JSONOutIntended(New(0), elem)
  {
    JSONOutEmpty(New(0), elem);
    assert IntToString(0) == "0";
  }

  /** Exactly `n - 1` separators: the length of the output for `n >= 1` bodies is the header,
      the two brackets, the brace, the element texts and `n - 1` commas. */
  lemma JSONOutLength(bt: BodyTracking, elem: BodyPosition -> string)
    requires |bt.bodies| > 0
    ensures |JSONOut(bt, elem)| == |Header(bt.time)| + 3 + SumLengths(Elements(bt.bodies, elem)) + (|bt.bodies| - 1)
  {
    JSONOutNonEmpty(bt, elem);
    JoinLength(Elements(bt.bodies, elem), ",");
  }

  /** No trailing comma: for `n >= 1` the array text before `]}` ends with the last body's
      element text and begins right after `[` with the first body's. */
  lemma JSONOutNoTrailingComma(bt: BodyTracking, elem: BodyPosition -> string)
    requires |bt.bodies| > 0
    ensures var json := JSONOut(bt, elem);
      var inner := json[|Header(bt.time)| + 1..|json| - 2];
      StartsWith(inner, elem(bt.bodies[0])) && EndsWith(inner, elem(bt.bodies[|bt.bodies| - 1]))
  {
    var texts := Elements(bt.bodies, elem);
    JSONOutNonEmpty(bt, elem);
    JoinEnds(texts, ",");
    var json := JSONOut(bt, elem);
    var h := Header(bt.time) + "[";
    assert json[|Header(bt.time)| + 1..|json| - 2] == Join(texts, ",");
  }

  // ---------------------------------------------------------------------------
  // Reading the timestamp back

  /** The characters of `s` before its first comma. */
  function UpToComma(s: string): string
    decreases |s|
  {
    if |s| == 0 || s[0] == ',' then "" else [s[0]] + UpToComma(s[1..])
  }

  /** The timestamp of a document: the integer between the `timestamp` key and the next comma. */
  function ReadTimestamp(doc: string): Option<int> {
    if StartsWith(doc, TimestampField) then ParseInt(UpToComma(doc[|TimestampField|..])) else None
  }

  lemma {:induction false} UpToCommaStops(a: string, b: string)
    requires forall k :: 0 <= k < |a| ==> a[k] != ','
    requires |b| > 0 && b[0] == ','
    ensures UpToComma(a + b) == a
    decreases |a|
  {
    if |a| > 0 {
      assert (a + b)[1..] == a[1..] + b;
      UpToCommaStops(a[1..], b);
    }
  }

  /** The constructor's timestamp is what every call of `JSONOut` reports, for any list of
      bodies, the empty one included. */
  lemma TimestampRoundTrip(bt: BodyTracking, elem: BodyPosition -> string)
    ensures ReadTimestamp(JSONOut(bt, elem)) == Some(bt.time as int)
  {
    var json := JSONOut(bt, elem);
    var digits := IntToString(bt.time as int);
    var h := Header(bt.time);
    assert json == h + json[|h|..];
    assert json[|TimestampField|..] == digits + (BodiesField + json[|h|..]);
    UpToCommaStops(digits, BodiesField + json[|h|..]);
    IntToStringRoundTrip(bt.time as int);
  }
}
