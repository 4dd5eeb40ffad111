/**
 The dependency-transition wire format (`src/dep_wire.rs`): a length, a version, a kind and tagged
 UTF-8 fields, each field at most once. Text is held as its UTF-8 bytes.
 */
module Wire {
  import opened Wrappers
  import opened Utf8
  import opened Numerals

  const LIMIT: nat := 65536

  type Text = bs: seq<Byte> | Valid(bs)

  /** An ordered map from tags to text. */
  type Fields = map<Byte, Text>

  datatype WireError =
    | UnknownField | FrameTooLong
    | BadFrame | UnknownMessage | TruncatedField | UnknownOrTruncated | NotUtf8 | DuplicateField
    | EndOfStream | LengthRefused

  function Be32(n: nat): (bs: seq<Byte>)
    requires n < 0x1_0000_0000
    ensures |bs| == 4
  {
    [n / 0x100_0000, n / 0x1_0000 % 0x100, n / 0x100 % 0x100, n % 0x100]
  }

  function FromBe32(bs: seq<Byte>): nat
    requires |bs| == 4
  {
    ((bs[0] as int * 0x100 + bs[1]) * 0x100 + bs[2]) * 0x100 + bs[3]
  }

  lemma Be32RoundTrip(n: nat)
    requires n < 0x1_0000_0000
    ensures FromBe32(Be32(n)) == n
  {
    var (a, b, c) := (n / 0x100_0000, n / 0x1_0000, n / 0x100);
    assert n == c * 0x100 + n % 0x100;
    assert c == b * 0x100 + c % 0x100;
    assert b == a * 0x100 + b % 0x100;
  }

  /** The length is written in network order. */
  lemma Be32IsNetworkOrder(bs: seq<Byte>)
    requires |bs| == 4
    ensures FromBe32(bs) == bs[0] as int * 0x100_0000 + bs[1] as int * 0x1_0000 + bs[2] as int * 0x100 + bs[3]
    ensures Be32(FromBe32(bs)) == bs
  {
    var (a, b) := (bs[0] as int * 0x100 + bs[1], (bs[0] as int * 0x100 + bs[1]) * 0x100 + bs[2]);
    var n := b * 0x100 + bs[3];
    assert n / 0x100 == b && b / 0x100 == a && n / 0x1_0000 == a && n / 0x100_0000 == bs[0];
  }

  // --- Encoding -----------------------------------------------------------------------------

  /** The length is written as 32 bits, whatever it is. */
  function Field(tag: Byte, text: Text): (bs: seq<Byte>)
    ensures |bs| == 5 + |text|
  {
    [tag] + Be32(|text| % 0x1_0000_0000) + text
  }

  /** The fields with tags from `n` on, in ascending order. */
  function FieldsFrom(fields: Fields, n: nat): seq<Byte>
    decreases 256 - n
  {
    if n >= 256 then []
    else (if n in fields then Field(n, fields[n]) else []) + FieldsFrom(fields, n + 1)
  }

  function SizeFrom(fields: Fields, n: nat): nat
    decreases 256 - n
  {
    if n >= 256 then 0
    else (if n in fields then 5 + |fields[n]| else 0) + SizeFrom(fields, n + 1)
  }

  predicate KnownTags(fields: Fields) { forall t :: t in fields ==> 1 <= t <= 12 }

  /** Exactly what `encode` accepts: known tags and a body within the limit. It does not look at the kind. */
  predicate Encodable(fields: Fields) { KnownTags(fields) && 2 + SizeFrom(fields, 0) <= LIMIT }

  lemma FieldsStep(fields: Fields, n: nat)
    requires n < 256
    ensures FieldsFrom(fields, n) == (if n in fields then Field(n, fields[n]) else []) + FieldsFrom(fields, n + 1)
    ensures SizeFrom(fields, n) == (if n in fields then 5 + |fields[n]| else 0) + SizeFrom(fields, n + 1)
  {
    hide Field, Valid;
  }

  lemma NextField(fields: Fields, n: nat, before: seq<Byte>)
    requires n < 256
    ensures before + FieldsFrom(fields, n) ==
      before + (if n in fields then Field(n, fields[n]) else []) + FieldsFrom(fields, n + 1)
    ensures SizeFrom(fields, n) == (if n in fields then 5 + |fields[n]| else 0) + SizeFrom(fields, n + 1)
  {
    hide Field, Valid, FieldsFrom, SizeFrom;
    FieldsStep(fields, n);
  }

  lemma {:induction false} SizeIsLength(fields: Fields, n: nat)
    ensures |FieldsFrom(fields, n)| == SizeFrom(fields, n)
    decreases 256 - n
  {
    if n < 256 { SizeIsLength(fields, n + 1); }
  }

  function Body(kind: Byte, fields: Fields): (body: seq<Byte>)
    requires Encodable(fields)
    ensures |body| <= LIMIT
  {
    SizeIsLength(fields, 0);
    [1, kind] + FieldsFrom(fields, 0)
  }

  function Frame(kind: Byte, fields: Fields): seq<Byte>
    requires Encodable(fields)
  {
    Be32(|Body(kind, fields)|) + Body(kind, fields)
  }

  lemma NoFieldsLeft(fields: Fields)
    ensures FieldsFrom(fields, 256) == [] && SizeFrom(fields, 256) == 0
  {
  }

  method Encode(kind: Byte, fields: Fields) returns (r: Result<seq<Byte>, WireError>)
    ensures r.Ok? <==> Encodable(fields)
    ensures r.Ok? ==> r.value == Frame(kind, fields)
  {
    hide Valid, Field, FieldsFrom, SizeFrom;
    assert FieldsFrom(fields, 256) == [] && SizeFrom(fields, 256) == 0 by { NoFieldsLeft(fields); }
    var body: seq<Byte> := [1, kind];
    for tag: int := 0 to 256
      invariant forall t :: t in fields && t < tag ==> 1 <= t <= 12
      invariant 2 <= |body| <= LIMIT
      invariant |body| + SizeFrom(fields, tag) == 2 + SizeFrom(fields, 0)
      invariant body + FieldsFrom(fields, tag) == [1, kind] + FieldsFrom(fields, 0)
    {
      NextField(fields, tag, body);
      if tag in fields {
        var text := fields[tag];
        if tag == 0 || tag > 12 { return Err(UnknownField); }
        if |body| + 5 + |text| > LIMIT { return Err(FrameTooLong); }
        body := body + Field(tag, text);
      }
    }
    assert Encodable(fields);
    assert body == Body(kind, fields);
    return Ok(Be32(|body|) + body);
  }

  // --- Decoding -----------------------------------------------------------------------------

  /** The fields that `bs` holds, added to those already read. */
  function DecodeFields(bs: seq<Byte>, fields: Fields): Result<Fields, WireError>
    decreases |bs|
  {
    if bs == [] then Ok(fields)
    else if |bs| < 5 then Err(TruncatedField)
    else
      var (tag, len, rest) := (bs[0], FromBe32(bs[1..5]), bs[5..]);
      if tag == 0 || tag > 12 || len > |rest| then Err(UnknownOrTruncated)
      else if !Valid(rest[..len]) then Err(NotUtf8)
      else if tag in fields then Err(DuplicateField)
      else DecodeFields(rest[len..], fields[tag := rest[..len]])
  }

  predicate KnownKind(kind: Byte) { 1 <= kind <= 8 }

  function DecodeBody(body: seq<Byte>): Result<(Byte, Fields), WireError> {
    if |body| < 2 || |body| > LIMIT || body[0] != 1 then Err(BadFrame)
    else if !KnownKind(body[1]) then Err(UnknownMessage)
    else match DecodeFields(body[2..], map[])
      case Ok(fields) => Ok((body[1], fields))
      case Err(e) => Err(e)
  }

  method Decode(body: seq<Byte>) returns (r: Result<(Byte, Fields), WireError>)
    ensures r == DecodeBody(body)
  {
    hide Valid, FromBe32;
    if |body| < 2 || |body| > LIMIT || body[0] != 1 { return Err(BadFrame); }
    if body[1] !in [1, 2, 3, 4, 5, 6, 7, 8] { return Err(UnknownMessage); }
    var at := 2;
    var fields: Fields := map[];
    while at < |body|
      invariant 2 <= at <= |body|
      invariant DecodeFields(body[2..], map[]) == DecodeFields(body[at..], fields)
    {
      ghost var bs := body[at..];
      if |body| - at < 5 { return Err(TruncatedField); }
      var tag := body[at];
      assert body[at + 1..at + 5] == bs[1..5];
      var len := FromBe32(body[at + 1..at + 5]);
      at := at + 5;
      assert bs[5..] == body[at..];
      if tag == 0 || tag > 12 || len > |body| - at { return Err(UnknownOrTruncated); }
      var s := body[at..at + len];
      assert s == bs[5..][..len] && body[at + len..] == bs[5..][len..];
      if !Valid(s) { return Err(NotUtf8); }
      if tag in fields { return Err(DuplicateField); }
      fields := fields[tag := s];
      at := at + len;
    }
    return Ok((body[1], fields));
  }

  // --- Round trips ----------------------------------------------------------------------------

  function Below(fields: Fields, n: nat): Fields { map t | t in fields && t < n :: fields[t] }

  lemma DecodeOneField(tag: Byte, text: Text, rest: seq<Byte>, fields: Fields)
    requires 1 <= tag <= 12 && |text| <= LIMIT && tag !in fields
    ensures DecodeFields(Field(tag, text) + rest, fields) == DecodeFields(rest, fields[tag := text])
  {
    hide Valid, FromBe32, Be32;
    var bs := Field(tag, text) + rest;
    Be32RoundTrip(|text|);
    assert |text| % 0x1_0000_0000 == |text|;
    assert bs[1..5] == Be32(|text|);
    assert bs[5..] == text + rest;
    assert bs[5..][..|text|] == text && bs[5..][|text|..] == rest;
  }

  lemma DecodeNothing(fields: Fields)
    ensures DecodeFields([], fields) == Ok(fields)
  {
  }

  lemma {:induction false} DecodeFieldsFrom(fields: Fields, n: nat)
    requires KnownTags(fields) && 2 + SizeFrom(fields, n) <= LIMIT && n <= 256
    ensures DecodeFields(FieldsFrom(fields, n), Below(fields, n)) == Ok(fields)
    decreases 256 - n
  {
    hide Valid, DecodeFields, Field;
    if n == 256 {
      assert FieldsFrom(fields, n) == [] && Below(fields, n) == fields;
      DecodeNothing(fields);
    } else {
      DecodeFieldsFrom(fields, n + 1);
      if n in fields {
        DecodeOneField(n, fields[n], FieldsFrom(fields, n + 1), Below(fields, n));
        assert Below(fields, n + 1) == Below(fields, n)[n := fields[n]];
      } else {
        assert FieldsFrom(fields, n) == FieldsFrom(fields, n + 1);
        assert Below(fields, n + 1) == Below(fields, n);
      }
    }
  }

  /** Every message that encodes, of a kind that decodes, decodes to itself. */
  lemma EncodedDecodesToItself(kind: Byte, fields: Fields)
    requires Encodable(fields)
    ensures DecodeBody(Body(kind, fields)) == (if KnownKind(kind) then Ok((kind, fields)) else Err(UnknownMessage))
  {
    hide DecodeFields, FieldsFrom, Valid;
    DecodeFieldsFrom(fields, 0);
    assert Below(fields, 0) == map[];
    assert Body(kind, fields)[2..] == FieldsFrom(fields, 0);
  }

  lemma {:induction false} SizeWithField(fields: Fields, tag: Byte, text: Text, n: nat)
    requires tag !in fields
    ensures SizeFrom(fields[tag := text], n) == SizeFrom(fields, n) + (if tag >= n then 5 + |text| else 0)
    decreases 256 - n
  {
    if n < 256 { SizeWithField(fields, tag, text, n + 1); }
  }

  lemma {:induction false} DecodedSize(bs: seq<Byte>, fields: Fields)
    requires DecodeFields(bs, fields).Ok? && KnownTags(fields)
    ensures SizeFrom(DecodeFields(bs, fields).value, 0) == SizeFrom(fields, 0) + |bs|
    ensures KnownTags(DecodeFields(bs, fields).value)
    decreases |bs|
  {
    if bs != [] {
      var (tag, len, rest) := (bs[0], FromBe32(bs[1..5]), bs[5..]);
      SizeWithField(fields, tag, rest[..len], 0);
      DecodedSize(rest[len..], fields[tag := rest[..len]]);
    }
  }

  lemma {:induction false} EmptySize(n: nat)
    ensures SizeFrom(map[], n) == 0
    decreases 256 - n
  {
    if n < 256 { EmptySize(n + 1); }
  }

  /** Every body that decodes, in whatever order its fields came, encodes again to a body of the same length
      that decodes to the same message. */
  lemma DecodedEncodesAgain(body: seq<Byte>)
    requires DecodeBody(body).Ok?
    ensures var (kind, fields) := DecodeBody(body).value;
      && Encodable(fields) && |Body(kind, fields)| == |body|
      && DecodeBody(Body(kind, fields)) == DecodeBody(body)
  {
    var (kind, fields) := DecodeBody(body).value;
    EmptySize(0);
    DecodedSize(body[2..], map[]);
    SizeIsLength(fields, 0);
    EncodedDecodesToItself(kind, fields);
  }

  // --- Fields in any order ----------------------------------------------------------------------

  /** Fields one after another, as a sender writes them. */
  function AllFields(list: seq<(Byte, Text)>): seq<Byte> {
    if list == [] then [] else Field(list[0].0, list[0].1) + AllFields(list[1..])
  }

  /** Known tags, each at most once, on texts that a message can hold. */
  predicate Sendable(list: seq<(Byte, Text)>) {
    && (forall i :: 0 <= i < |list| ==> 1 <= list[i].0 <= 12 && |list[i].1| <= LIMIT)
    && (forall i, j :: 0 <= i < j < |list| ==> list[i].0 != list[j].0)
  }

  /** The map holds exactly the fields of the list, and those it already had. */
  ghost predicate Holds(after: Fields, before: Fields, list: seq<(Byte, Text)>) {
    && (forall t :: t in after <==> t in before || exists i :: 0 <= i < |list| && list[i].0 == t)
    && (forall i :: 0 <= i < |list| ==> list[i].0 in after && after[list[i].0] == list[i].1)
    && (forall t :: t in before ==> t in after && after[t] == before[t])
  }

  predicate Apart(list: seq<(Byte, Text)>, fields: Fields) {
    forall i :: 0 <= i < |list| ==> list[i].0 !in fields
  }

  /** Fields are read in the order they come, whatever their tags. */
  lemma {:induction false} FieldsAreRead(list: seq<(Byte, Text)>, rest: seq<Byte>, before: Fields)
    returns (after: Fields)
    requires Sendable(list) && Apart(list, before)
    ensures Holds(after, before, list)
    ensures DecodeFields(AllFields(list) + rest, before) == DecodeFields(rest, after)
  {
    hide Valid, DecodeFields, Field;
    if list == [] {
      after := before;
      assert AllFields(list) + rest == rest;
    } else {
      var (tag, text) := list[0];
      var next := before[tag := text];
      assert list[0] in list;
      assert forall i :: 0 <= i < |list[1..]| ==> list[1..][i] == list[i + 1];
      DecodeOneField(tag, text, AllFields(list[1..]) + rest, before);
      assert AllFields(list) + rest == Field(tag, text) + (AllFields(list[1..]) + rest);
      after := FieldsAreRead(list[1..], rest, next);
      HoldsOneMore(after, before, list);
    }
  }

  lemma HoldsOneMore(after: Fields, before: Fields, list: seq<(Byte, Text)>)
    requires list != [] && list[0].0 !in before && Holds(after, before[list[0].0 := list[0].1], list[1..])
    ensures Holds(after, before, list)
  {
    var (rest, next) := (list[1..], before[list[0].0 := list[0].1]);
    forall t ensures t in after <==> t in before || exists i :: 0 <= i < |list| && list[i].0 == t {
      if i :| 0 <= i < |rest| && rest[i].0 == t { assert list[i + 1].0 == t; }
      if i :| 0 <= i < |list| && list[i].0 == t {
        if i > 0 { assert rest[i - 1].0 == t; }
      }
    }
    forall i | 0 <= i < |list| ensures list[i].0 in after && after[list[i].0] == list[i].1 {
      if i > 0 { assert rest[i - 1] == list[i]; } else { assert list[0].0 in next; }
    }
    forall t | t in before ensures t in after && after[t] == before[t] {
      assert t in next;
    }
  }

  /** A message is read from its fields in any order. */
  lemma AnyOrderDecodes(kind: Byte, list: seq<(Byte, Text)>) returns (fields: Fields)
    requires Sendable(list) && KnownKind(kind) && 2 + |AllFields(list)| <= LIMIT
    ensures Holds(fields, map[], list) && DecodeBody([1, kind] + AllFields(list)) == Ok((kind, fields))
  {
    hide Valid, DecodeFields, Field;
    fields := FieldsAreRead(list, [], map[]);
    DecodeNothing(fields);
    assert AllFields(list) + [] == AllFields(list);
    assert ([1, kind] + AllFields(list))[2..] == AllFields(list);
  }

  /** A body is refused for its frame before its kind, and for its kind before its fields. */
  lemma BodyRefusedExactly(body: seq<Byte>)
    ensures var bad := |body| < 2 || |body| > LIMIT || body[0] != 1;
      && (DecodeBody(body) == Err(BadFrame) <==> bad)
      && (DecodeBody(body) == Err(UnknownMessage) <==> !bad && !(1 <= body[1] <= 8))
  {
    hide DecodeFields;
    if |body| >= 2 && |body| <= LIMIT {
      var list, rest, after := FieldsReadTill(body[2..], map[]);
    }
  }

  /** A message is written with its fields in ascending order. */
  lemma {:induction false} WrittenInOrder(fields: Fields, n: nat) returns (list: seq<(Byte, Text)>)
    ensures FieldsFrom(fields, n) == AllFields(list)
    ensures forall i, j :: 0 <= i < j < |list| ==> list[i].0 < list[j].0
    ensures forall i :: 0 <= i < |list| ==> n <= list[i].0 && list[i].0 in fields && fields[list[i].0] == list[i].1
    ensures forall t :: t in fields && t >= n ==> (t, fields[t]) in list
    decreases 256 - n
  {
    hide Field, Valid, FieldsFrom, AllFields, SizeFrom;
    if n >= 256 {
      list := [];
      NothingWritten(fields, n);
    } else {
      FieldsStep(fields, n);
      list := WrittenInOrder(fields, n + 1);
      if n in fields {
        OneFieldFirst(n, fields[n], list);
        list := [(n, fields[n])] + list;
      } else {
        assert [] + FieldsFrom(fields, n + 1) == FieldsFrom(fields, n + 1);
      }
    }
  }

  lemma NothingWritten(fields: Fields, n: nat)
    requires n >= 256
    ensures FieldsFrom(fields, n) == AllFields([])
  {
  }

  lemma OneFieldFirst(tag: Byte, text: Text, list: seq<(Byte, Text)>)
    ensures AllFields([(tag, text)] + list) == Field(tag, text) + AllFields(list)
  {
    hide Field, Valid;
    assert ([(tag, text)] + list)[1..] == list;
  }

  /** What is left cannot begin with a field that the fields so far allow, and this is why. */
  ghost predicate BadFront(rest: seq<Byte>, fields: Fields, why: WireError) {
    rest != [] &&
    if |rest| < 5 then why == TruncatedField
    else
      var (tag, len) := (rest[0], FromBe32(rest[1..5]));
      if !(1 <= tag <= 12) || |rest| < 5 + len then why == UnknownOrTruncated
      else if !WellFormed(rest[5..5 + len]) then why == NotUtf8
      else tag in fields && why == DuplicateField
  }

  lemma FrontIsRefused(rest: seq<Byte>, fields: Fields, why: WireError)
    requires BadFront(rest, fields, why)
    ensures DecodeFields(rest, fields) == Err(why)
  {
    if |rest| >= 5 && |rest| >= 5 + FromBe32(rest[1..5]) {
      var len := FromBe32(rest[1..5]);
      assert rest[5..][..len] == rest[5..5 + len];
      ValidIsWellFormed(rest[5..5 + len]);
    }
  }

  /** Every body of fields is a list of good fields, and then either nothing more or the first that cannot be read. */
  lemma {:induction false} FieldsReadTill(bs: seq<Byte>, before: Fields)
    returns (list: seq<(Byte, Text)>, rest: seq<Byte>, after: Fields)
    requires |bs| <= LIMIT
    ensures bs == AllFields(list) + rest && Sendable(list) && Apart(list, before) && Holds(after, before, list)
    ensures rest == [] || exists why :: BadFront(rest, after, why)
    ensures match DecodeFields(bs, before)
            case Ok(fields) => rest == [] && fields == after
            case Err(why) => BadFront(rest, after, why)
    decreases |bs|
  {
    hide Valid, WellFormed, FromBe32, DecodeFields, BadFront, Sendable, Apart, Holds, AllFields, GoodFront;
    if bs == [] {
      DecodeNothing(before);
      NoFieldsYet(bs, before);
      list, rest, after := [], bs, before;
    } else if GoodFront(bs, before) {
      var tag, text, left := GoodFrontIs(bs, before);
      list, rest, after := FieldsReadTill(left, before[tag := text]);
      FieldsJoin(bs, tag, text, list, rest);
      ApartFromFirst(list, before, tag, text);
      HoldsFirst(after, before, tag, text, list);
      list := [(tag, text)] + list;
    } else {
      FrontIsBad(bs, before);
      NoFieldsYet(bs, before);
      list, rest, after := [], bs, before;
    }
  }

  /** The bytes begin with a field that the fields so far allow. */
  predicate GoodFront(bs: seq<Byte>, fields: Fields) {
    && |bs| >= 5
    && var (tag, len) := (bs[0], FromBe32(bs[1..5]));
    1 <= tag <= 12 && len <= |bs| - 5 && Valid(bs[5..][..len]) && tag !in fields
  }

  lemma GoodFrontIs(bs: seq<Byte>, fields: Fields) returns (tag: Byte, text: Text, left: seq<Byte>)
    requires GoodFront(bs, fields) && |bs| <= LIMIT
    ensures
      && 1 <= tag <= 12 && tag !in fields && 5 + |text| <= |bs| && bs[0] == tag && FromBe32(bs[1..5]) == |text|
      && text == bs[5..][..|text|] && left == bs[5..][|text|..]
      && DecodeFields(bs, fields) == DecodeFields(left, fields[tag := text])
  {
    hide FromBe32;
    var len := FromBe32(bs[1..5]);
    tag, text, left := bs[0], bs[5..][..len], bs[5..][len..];
  }

  lemma NoFieldsYet(bs: seq<Byte>, before: Fields)
    ensures bs == AllFields([]) + bs && Sendable([]) && Apart([], before) && Holds(before, before, [])
  {
    assert [] + bs == bs;
  }

  lemma HoldsFirst(after: Fields, before: Fields, tag: Byte, text: Text, list: seq<(Byte, Text)>)
    requires tag !in before && Holds(after, before[tag := text], list)
    ensures Holds(after, before, [(tag, text)] + list)
  {
    hide Holds;
    assert ([(tag, text)] + list)[1..] == list;
    HoldsOneMore(after, before, [(tag, text)] + list);
  }

  lemma FieldsJoin(bs: seq<Byte>, tag: Byte, text: Text, list: seq<(Byte, Text)>, rest: seq<Byte>)
    requires 5 + |text| <= |bs| <= LIMIT && bs[0] == tag && FromBe32(bs[1..5]) == |text| && text == bs[5..][..|text|]
    requires bs[5..][|text|..] == AllFields(list) + rest
    ensures bs == AllFields([(tag, text)] + list) + rest
  {
    hide Valid, FromBe32, Be32;
    Be32IsNetworkOrder(bs[1..5]);
    assert |text| % 0x1_0000_0000 == |text|;
    assert ([(tag, text)] + list)[1..] == list;
    assert bs == [tag] + bs[1..5] + text + (AllFields(list) + rest);
  }

  lemma ApartFromFirst(list: seq<(Byte, Text)>, before: Fields, tag: Byte, text: Text)
    requires Sendable(list) && Apart(list, before[tag := text]) && tag !in before && 1 <= tag <= 12 && |text| <= LIMIT
    ensures Sendable([(tag, text)] + list) && Apart([(tag, text)] + list, before)
  {
  }

  lemma FrontIsBad(bs: seq<Byte>, fields: Fields)
    requires bs != [] && !GoodFront(bs, fields)
    ensures exists why :: BadFront(bs, fields, why) && DecodeFields(bs, fields) == Err(why)
  {
    hide FromBe32;
    var why :=
      if |bs| < 5 then TruncatedField
      else
        var (tag, len) := (bs[0], FromBe32(bs[1..5]));
        if !(1 <= tag <= 12) || |bs| < 5 + len then UnknownOrTruncated
        else if !Valid(bs[5..5 + len]) then NotUtf8 else DuplicateField;
    if |bs| >= 5 && |bs| >= 5 + FromBe32(bs[1..5]) {
      var len := FromBe32(bs[1..5]);
      assert bs[5..][..len] == bs[5..5 + len];
      ValidIsWellFormed(bs[5..5 + len]);
    }
    assert BadFront(bs, fields, why);
    FrontIsRefused(bs, fields, why);
  }

  // --- Reading a stream -----------------------------------------------------------------------

  /** A message and what follows it, read from the front of a stream that then ends. */
  function Read(stream: seq<Byte>): Result<((Byte, Fields), seq<Byte>), WireError> {
    if |stream| < 4 then Err(EndOfStream)
    else
      var size := FromBe32(stream[..4]);
      if !(2 <= size <= LIMIT) then Err(LengthRefused)
      else if |stream| < size + 4 then Err(EndOfStream)
      else match DecodeBody(stream[4..size + 4])
        case Ok(message) => Ok((message, stream[size + 4..]))
        case Err(e) => Err(e)
  }

  /** A written frame is read back whole, and nothing after it is touched. */
  lemma ReadUndoesFrame(kind: Byte, fields: Fields, rest: seq<Byte>)
    requires Encodable(fields) && KnownKind(kind)
    ensures Read(Frame(kind, fields) + rest) == Ok(((kind, fields), rest))
  {
    var (body, stream) := (Body(kind, fields), Frame(kind, fields) + rest);
    Be32RoundTrip(|body|);
    assert stream[..4] == Be32(|body|);
    assert stream[4..|body| + 4] == body && stream[|body| + 4..] == rest;
    EncodedDecodesToItself(kind, fields);
  }

  lemma BodyIsRead(body: seq<Byte>, rest: seq<Byte>)
    requires 2 <= |body| <= LIMIT
    ensures Read(Be32(|body|) + body + rest) ==
      match DecodeBody(body) case Ok(message) => Ok((message, rest)) case Err(e) => Err(e)
  {
    hide DecodeBody, FromBe32, Be32;
    var stream := Be32(|body|) + body + rest;
    Be32RoundTrip(|body|);
    assert stream[..4] == Be32(|body|) && stream[4..|body| + 4] == body && stream[|body| + 4..] == rest;
  }

  lemma ReadHasABody(stream: seq<Byte>) returns (body: seq<Byte>)
    requires Read(stream).Ok?
    ensures 2 <= |body| <= LIMIT && stream == Be32(|body|) + body + Read(stream).value.1
    ensures DecodeBody(body) == Ok(Read(stream).value.0)
  {
    hide DecodeBody, FromBe32, Be32;
    var size := FromBe32(stream[..4]);
    body := stream[4..size + 4];
    Be32IsNetworkOrder(stream[..4]);
    assert stream == stream[..4] + body + stream[size + 4..];
  }

  /** A stream is read exactly when it begins with the length of a body that decodes, and that body. */
  lemma ReadsExactly(stream: seq<Byte>, message: (Byte, Fields), rest: seq<Byte>)
    ensures Read(stream) == Ok((message, rest)) <==>
      exists body :: 2 <= |body| <= LIMIT && stream == Be32(|body|) + body + rest && DecodeBody(body) == Ok(message)
  {
    hide DecodeBody, Be32, Read;
    if Read(stream) == Ok((message, rest)) { var body := ReadHasABody(stream); }
    if body :| 2 <= |body| <= LIMIT && stream == Be32(|body|) + body + rest && DecodeBody(body) == Ok(message) {
      BodyIsRead(body, rest);
    }
  }

  /** A length out of range is refused as soon as it is read, and otherwise a stream that ends too early. */
  lemma ReadRefusesExactly(stream: seq<Byte>)
    ensures Read(stream) == Err(LengthRefused) <==> |stream| >= 4 && !(2 <= FromBe32(stream[..4]) <= LIMIT)
    ensures Read(stream) == Err(EndOfStream) <==>
      |stream| < 4 || (2 <= FromBe32(stream[..4]) <= LIMIT && |stream| < FromBe32(stream[..4]) + 4)
  {
    hide FromBe32;
    if |stream| >= 4 && 2 <= FromBe32(stream[..4]) <= LIMIT && |stream| >= FromBe32(stream[..4]) + 4 {
      NeverMidStream(stream[4..FromBe32(stream[..4]) + 4]);
    }
  }

  lemma NeverMidStream(body: seq<Byte>)
    ensures DecodeBody(body) != Err(LengthRefused) && DecodeBody(body) != Err(EndOfStream)
  {
    hide DecodeFields;
    if |body| >= 2 && |body| <= LIMIT {
      var list, rest, after := FieldsReadTill(body[2..], map[]);
    }
  }

  // --- Capsules --------------------------------------------------------------------------------

  const HEX_LIMIT: nat := 32768

  function Hex(bs: seq<Byte>): (s: seq<Byte>)
    ensures |s| == 2 * |bs|
  {
    if bs == [] then [] else [Digit(bs[0] / 16, false), Digit(bs[0] % 16, false)] + Hex(bs[1..])
  }

  /** Two characters as the standard library parses them in base 16: a leading plus sign is allowed. */
  function PairValue(a: Byte, b: Byte): Option<Byte> {
    if a == 0x2B then HexValue(b)
    else if HexValue(a).Some? && HexValue(b).Some?
    then Some(HexValue(a).value * 16 + HexValue(b).value)
    else None
  }

  function UnhexPairs(s: seq<Byte>): (r: Option<seq<Byte>>)
    requires |s| % 2 == 0
    ensures r.Some? ==> |r.value| == |s| / 2
  {
    if s == [] then Some([])
    else
      var (first, rest) := (PairValue(s[0], s[1]), UnhexPairs(s[2..]));
      if first.Some? && rest.Some? then Some([first.value] + rest.value) else None
  }

  function Unhex(s: seq<Byte>): Option<seq<Byte>> {
    if |s| > HEX_LIMIT || |s| % 2 != 0 then None else UnhexPairs(s)
  }

  lemma {:induction false} UnhexUndoesHex(bs: seq<Byte>)
    ensures UnhexPairs(Hex(bs)) == Some(bs)
  {
    if bs != [] {
      var s := Hex(bs);
      UnhexUndoesHex(bs[1..]);
      assert s[2..] == Hex(bs[1..]);
      assert s[0] == Digit(bs[0] / 16, false) && s[1] == Digit(bs[0] % 16, false);
      assert PairValue(s[0], s[1]) == Some(bs[0]);
      assert bs == [bs[0]] + bs[1..];
    }
  }

  /** Written in digits and lower-case letters only. */
  predicate LowerHex(s: seq<Byte>) {
    s == [] || ((0x30 <= s[0] <= 0x39 || 0x61 <= s[0] <= 0x66) && LowerHex(s[1..]))
  }

  lemma PairIsWritten(a: Byte, b: Byte)
    requires PairValue(a, b).Some?
    ensures var v := PairValue(a, b).value;
      (Digit(v / 16, false) == a && Digit(v % 16, false) == b) <==> LowerHex([a, b])
  {
    assert [a, b][1..] == [b] && [b][1..] == [];
    assert LowerHex([b]) <==> 0x30 <= b <= 0x39 || 0x61 <= b <= 0x66;
  }

  /** Pairs are read exactly when each is two digits of either case, or a plus sign and a digit. */
  lemma {:induction false} UnhexReadsExactly(s: seq<Byte>)
    requires |s| % 2 == 0
    ensures UnhexPairs(s).Some? <==> forall i :: 0 <= i < |s| / 2 ==> PairRead(s[2 * i], s[2 * i + 1])
    ensures UnhexPairs(s).Some? ==>
      forall i :: 0 <= i < |s| / 2 ==>
        UnhexPairs(s).value[i] == (if s[2 * i] == 0x2B then 0 else HexValue(s[2 * i]).value) * 16
                                  + HexValue(s[2 * i + 1]).value
  {
    hide HexValue;
    if s != [] {
      var rest := s[2..];
      UnhexReadsExactly(rest);
      assert forall i :: 0 <= i < |rest| / 2 ==> rest[2 * i] == s[2 * (i + 1)] && rest[2 * i + 1] == s[2 * (i + 1) + 1];
      forall i | 0 < i < |s| / 2 ensures s[2 * i] == rest[2 * (i - 1)] && s[2 * i + 1] == rest[2 * (i - 1) + 1] {
      }
      assert HexValue(0x2B) == None by { SignIsNoDigit(); }
      if UnhexPairs(s).Some? {
        forall i | 0 <= i < |s| / 2 ensures PairRead(s[2 * i], s[2 * i + 1]) {
          if i > 0 { assert PairRead(rest[2 * (i - 1)], rest[2 * (i - 1) + 1]); }
        }
      } else if forall i :: 0 <= i < |s| / 2 ==> PairRead(s[2 * i], s[2 * i + 1]) {
        assert PairRead(s[2 * 0], s[2 * 0 + 1]);
        forall i | 0 <= i < |rest| / 2 ensures PairRead(rest[2 * i], rest[2 * i + 1]) {
          assert PairRead(s[2 * (i + 1)], s[2 * (i + 1) + 1]);
        }
        assert false;
      }
    }
  }

  predicate PairRead(a: Byte, b: Byte) { (a == 0x2B || HexValue(a).Some?) && HexValue(b).Some? }

  lemma SignIsNoDigit()
    ensures HexValue(0x2B) == None
  {
  }

  /** What decodes is the text `hex` writes exactly when it is written in lower-case digits: capitals and
      plus signs are read too. */
  lemma {:induction false} HexUndoesUnhex(s: seq<Byte>)
    requires |s| % 2 == 0 && UnhexPairs(s).Some?
    ensures Hex(UnhexPairs(s).value) == s <==> LowerHex(s)
  {
    if s != [] {
      var (v, rest) := (PairValue(s[0], s[1]).value, UnhexPairs(s[2..]).value);
      HexUndoesUnhex(s[2..]);
      PairIsWritten(s[0], s[1]);
      assert [s[0], s[1]][1..] == [s[1]] && [s[1]][1..] == [] && s[1..][1..] == s[2..] && s[1..][0] == s[1];
      assert LowerHex([s[1]]) <==> 0x30 <= s[1] <= 0x39 || 0x61 <= s[1] <= 0x66;
      hide UnhexPairs, PairValue, Digit;
      assert UnhexPairs(s).value == [v] + rest by { UnhexFirst(s); }
      HexCons(v, rest);
      assert s == [s[0], s[1]] + s[2..];
    }
  }

  lemma UnhexFirst(s: seq<Byte>)
    requires |s| % 2 == 0 && s != [] && UnhexPairs(s).Some?
    ensures UnhexPairs(s).value == [PairValue(s[0], s[1]).value] + UnhexPairs(s[2..]).value
  {
  }

  lemma HexCons(v: Byte, rest: seq<Byte>)
    ensures Hex([v] + rest) == [Digit(v / 16, false), Digit(v % 16, false)] + Hex(rest)
  {
    assert ([v] + rest)[1..] == rest;
  }

  /** A sign is read as if it were a leading zero. */
  lemma UnhexReadsASign()
    ensures Unhex([0x2B, 0x66]) == Some([15]) && Hex([15]) != [0x2B, 0x66]
  {
    var s: seq<Byte> := [0x2B, 0x66];
    assert s[2..] == [] && UnhexPairs(s[2..]) == Some([]);
    assert PairValue(s[0], s[1]) == Some(15);
    assert UnhexPairs(s).Some? && UnhexPairs(s).value == [15];
    assert Hex([15])[0] == 0x30;
  }

  const CAPSULE_KEYS: set<Byte> := {1, 2, 3, 4, 5, 6}

  function Capsule(s: seq<Byte>): Option<Fields> {
    var raw := Unhex(s);
    if raw.None? then None
    else match Read(raw.value)
      case Err(_) => None
      case Ok((message, rest)) =>
        if message.0 == 7 && rest == [] && message.1.Keys == CAPSULE_KEYS then Some(message.1) else None
  }

  /** A capsule is read exactly from the hexadecimal of one whole frame, with nothing after it, that holds an
      association of the six fields. */
  lemma CapsuleReadsExactly(s: seq<Byte>, fields: Fields)
    ensures Capsule(s) == Some(fields) <==>
      && |s| <= HEX_LIMIT && |s| % 2 == 0 && UnhexPairs(s).Some? && fields.Keys == {1, 2, 3, 4, 5, 6}
      && exists body :: 2 <= |body| <= LIMIT && UnhexPairs(s).value == Be32(|body|) + body + []
                        && DecodeBody(body) == Ok((7, fields))
  {
    hide Read, DecodeBody, UnhexPairs, Be32;
    if |s| <= HEX_LIMIT && |s| % 2 == 0 && UnhexPairs(s).Some? { ReadsExactly(UnhexPairs(s).value, (7, fields), []); }
  }

  /** An association survives the handover exactly when it has the six fields and its frame fits. */
  lemma CapsuleRoundTrip(kind: Byte, fields: Fields)
    requires Encodable(fields) && KnownKind(kind)
    ensures Capsule(Hex(Frame(kind, fields))) == Some(fields) <==>
      kind == 7 && fields.Keys == CAPSULE_KEYS && |Frame(kind, fields)| <= HEX_LIMIT / 2
  {
    hide Hex, Frame, UnhexPairs, Read, Valid, Encodable;
    UnhexUndoesHex(Frame(kind, fields));
    ReadUndoesFrame(kind, fields, []);
    assert Frame(kind, fields) + [] == Frame(kind, fields);
  }
}
