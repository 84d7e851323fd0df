/** The queue payload: event data as JSON, and how the handlers read it. */
module Payload {
  import opened Prelude
  import opened Text
  import opened UserProfile

  datatype Json =
    | Undefined
    | Null
    | Number(n: int)
    | Str(s: JsString)
    | Arr(items: seq<Json>)
    | Obj(fields: map<string, Json>)

  // ---------------------------------------------------------------- JavaScript access

  predicate Truthy(j: Json) {
    match j
    case Undefined => false
    case Null => false
    case Number(n) => n != 0
    case Str(s) => s != []
    case Arr(_) => true
    case Obj(_) => true
  }

  function OrElse(x: Json, y: Json): Json { if Truthy(x) then x else y }

  function Member(j: Json, name: string): Json {
    if j.Obj? && name in j.fields then j.fields[name] else Undefined
  }

  function Item(j: Json, i: nat): Json
    requires i < 10
  {
    if j.Arr? && i < |j.items| then j.items[i]
    else if j.Str? && i < |j.s| then Str([j.s[i]])
    else Member(j, ["0", "1", "2", "3", "4", "5", "6", "7", "8", "9"][i])
  }

  // ---------------------------------------------------------------- decoding a field

  const HEX_PREFIX: JsString := [0x30, 0x78]

  /** A byte as a buffer takes it from an array. */
  function BufferByte(j: Json): Byte {
    if j.Number? then j.n % 0x100 else 0
  }

  function BufferBytes(items: seq<Json>): Bytes {
    if items == [] then [] else [BufferByte(items[0])] + BufferBytes(items[1..])
  }

  function Decoded(bytes: Json): Option<JsString> {
    if !Truthy(bytes) then None
    else match bytes
      case Str(s) => if HEX_PREFIX <= s then Some(DecodeText(FromHex(s[2..]))) else Some(s)
      case Arr(items) => Some(DecodeText(BufferBytes(items)))
      case _ => None
  }

  function DecodeBytes(bytes: Json, maxLength: Option<nat>): (r: Option<JsString>)
    ensures r.Some? <==> Decoded(bytes).Some?
    ensures r.Some? ==> r.value <= Decoded(bytes).value
    ensures r.Some? && r != Decoded(bytes) ==> maxLength == Some(|r.value|)
    ensures maxLength.Some? && r.Some? ==> |r.value| <= maxLength.value
  {
    var decoded := Decoded(bytes);
    if decoded.Some? && maxLength.Some? && |decoded.value| > maxLength.value
    then Some(decoded.value[..maxLength.value]) else decoded
  }

  // ---------------------------------------------------------------- events as JSON

  function HexJson(b: Bytes): Json { Str(HEX_PREFIX + ToHex(b)) }

  function OptionJson(b: Option<Bytes>): Json {
    if b.Some? then HexJson(b.value) else Json.Null
  }

  /** None and Some(None) both become null. */
  function PatchJson(p: Patch): Json {
    if p.Some? then OptionJson(p.value) else Json.Null
  }

  /** Event data as the chain client renders it: an array by position. */
  function EventJson(e: Event): Json {
    match e
    case UsernameSet(a, u) => Arr([Str(a), HexJson(u)])
    case ProfileUpdated(a, u, avatar, bio) => Arr([Str(a), OptionJson(u), PatchJson(avatar), PatchJson(bio)])
    case StatsUpdated(a, s) =>
      Arr([Str(a), Number(s.totalRaces), Number(s.wins), Number(s.totalDistance), Number(s.totalRewards)])
  }

  /** The form with named fields, which the profile handlers try first. */
  function EventObject(e: Event): Json
    requires !e.StatsUpdated?
  {
    match e
    case UsernameSet(a, u) => Obj(map["account" := Str(a), "username" := HexJson(u)])
    case ProfileUpdated(a, u, avatar, bio) =>
      Obj(map["account" := Str(a), "username" := OptionJson(u), "avatar" := PatchJson(avatar),
              "bio" := PatchJson(bio)])
  }

  /** The form with numbered fields, the last the username handler tries. */
  function EventIndexed(e: Event): Json
    requires !e.StatsUpdated?
  {
    match e
    case UsernameSet(a, u) => Obj(map["0" := Str(a), "1" := HexJson(u)])
    case ProfileUpdated(a, u, avatar, bio) =>
      Obj(map["0" := Str(a), "1" := OptionJson(u), "2" := PatchJson(avatar), "3" := PatchJson(bio)])
  }

  function MethodName(e: Event): string {
    match e
    case UsernameSet(_, _) => "UsernameSet"
    case ProfileUpdated(_, _, _, _) => "ProfileUpdated"
    case StatsUpdated(_, _) => "StatsUpdated"
  }

  // ---------------------------------------------------------------- the round trip

  lemma DecodeHexJson(b: Bytes, maxLength: Option<nat>)
    ensures maxLength.None? || |b| <= maxLength.value ==> DecodeBytes(HexJson(b), maxLength) == Some(DecodeText(b))
  {
    HexRoundTrip(b);
    assert (HEX_PREFIX + ToHex(b))[2..] == ToHex(b);
  }

  /** Text within the on-chain bound is never truncated, and clean text comes back whole. */
  lemma DecodingLosesNothing(cs: seq<Scalar>)
    requires |Encode(cs)| <= MAX_USERNAME_LENGTH && 0 !in Encode(cs)
    ensures DecodeBytes(HexJson(Encode(cs)), Some(32)) == Some(Utf16(cs))
    ensures |Utf16(cs)| <= 32
  {
    DecodeHexJson(Encode(cs), Some(32));
    CleanTextKept(cs);
  }

  lemma DecodingInjective(a: Bytes, b: Bytes)
    requires |a| <= MAX_USERNAME_LENGTH && |b| <= MAX_USERNAME_LENGTH
    requires CleanText(a) && CleanText(b)
    ensures DecodeBytes(HexJson(a), Some(32)) == DecodeBytes(HexJson(b), Some(32)) <==> a == b
  {
    DecodeHexJson(a, Some(32));
    DecodeHexJson(b, Some(32));
    if DecodeText(a) == DecodeText(b) {
      CleanTextInjective(a, b);
    }
  }

  // ---------------------------------------------------------------- other payloads

  lemma FalsyValues(j: Json)
    ensures !Truthy(j) <==> j == Undefined || j == Null || j == Number(0) || j == Str([])
  {
  }

  /** Nothing is decoded from an absent or empty field, a number, or an object. */
  lemma UndecodedIff(j: Json)
    ensures Decoded(j).None? <==> j.Undefined? || j.Null? || j.Number? || j.Obj? || j == Str([])
  {
  }

  /** Text without the prefix is taken as it is. */
  lemma PlainText(s: JsString)
    requires s != [] && !([0x30, 0x78] <= s)
    ensures Decoded(Str(s)) == Some(s)
  {
  }

  function Numbers(b: Bytes): seq<Json> {
    if b == [] then [] else [Number(b[0])] + Numbers(b[1..])
  }

  /** An array of byte values reads as the same bytes in base16 do. */
  lemma ArrayReadsAsHex(b: Bytes, maxLength: Option<nat>)
    ensures DecodeBytes(Arr(Numbers(b)), maxLength) == DecodeBytes(HexJson(b), maxLength)
  {
    DecodeHexJson(b, None);
    BufferUndoesNumbers(b);
  }

  lemma {:induction false} BufferUndoesNumbers(b: Bytes)
    ensures BufferBytes(Numbers(b)) == b
  {
    if b != [] {
      BufferUndoesNumbers(b[1..]);
      assert Numbers(b)[1..] == Numbers(b[1..]);
    }
  }

  /** null stands for no change and for clearing alike. */
  lemma NullPatchIff(p: Patch)
    ensures PatchJson(p) == Json.Null <==> p == None || p == Some(None)
    ensures p.Some? && p.value.Some? ==> PatchJson(p) == Str([0x30, 0x78] + ToHex(p.value.value))
  {
  }

  /** A number in a byte array counts modulo 256, a negative one too. */
  lemma BufferWraps(n: int)
    ensures exists k :: n == 256 * k + BufferByte(Number(n))
  {
    assert n == 256 * (n / 256) + BufferByte(Number(n));
  }

  /** Indexing text gives one code unit, indexing past the end nothing. */
  lemma TextIndexed(s: JsString, i: nat)
    requires i < 10
    ensures Item(Str(s), i) == if i < |s| then Str([s[i]]) else Undefined
  {
  }
}
