/** Clamping health messages into the wire bounds, and the envelope that carries them. */
module Health {
  import opened Basics
  import opened Utf8

  const MAX_HEALTH_MESSAGE_BYTES := 512
  const SCHEMA_VERSION: u16 := 1

  // ---- UTF-8: section 3 of RFC 3629 ----

  type Text = seq<byte>

  function EncodeChar(c: char): (b: Text)
    ensures |b| == CharLen(c)
    ensures !IsContinuation(b[0]) && forall i :: 1 <= i < |b| ==> IsContinuation(b[i])
  {
    var v := c as int;
    if v < 0x80 then [v as byte]
    else if v < 0x800 then [(0xC0 + v / 64) as byte, (0x80 + v % 64) as byte]
    else if v < 0x1_0000 then [(0xE0 + v / 4096) as byte, (0x80 + v / 64 % 64) as byte, (0x80 + v % 64) as byte]
    else [(0xF0 + v / 262144) as byte, (0x80 + v / 4096 % 64) as byte, (0x80 + v / 64 % 64) as byte, (0x80 + v % 64) as byte]
  }

  predicate IsContinuation(b: byte) { 0x80 <= b < 0xC0 }

  /** The bytes of a string. */
  function Encode(s: string): (b: Text)
    ensures |b| == Len(s)
  {
    if s == [] then [] else Encode(s[..|s| - 1]) + EncodeChar(s[|s| - 1])
  }

  /** The code point an encoded character stands for. */
  function DecodeChar(b: Text): int
    requires 1 <= |b| <= 4
  {
    match |b|
    case 1 => b[0] as int
    case 2 => (b[0] as int - 0xC0) * 64 + (b[1] as int - 0x80)
    case 3 => (b[0] as int - 0xE0) * 4096 + (b[1] as int - 0x80) * 64 + (b[2] as int - 0x80)
    case _ => (b[0] as int - 0xF0) * 262144 + (b[1] as int - 0x80) * 4096 + (b[2] as int - 0x80) * 64 + (b[3] as int - 0x80)
  }

  lemma DecodeEncoded(c: char)
    ensures DecodeChar(EncodeChar(c)) == c as int
  {
    var v := c as int;
    assert v == v / 64 * 64 + v % 64;
    assert v / 64 == v / 4096 * 64 + v / 64 % 64;
    assert v / 4096 == v / 262144 * 64 + v / 4096 % 64;
  }

  /** `str::is_char_boundary`. */
  predicate IsCharBoundary(b: Text, index: nat) {
    index == 0 || index == |b| || (index < |b| && !IsContinuation(b[index]))
  }

  lemma {:induction false} LenMonotone(s: string, k: nat)
    requires k <= |s|
    ensures Len(s[..k]) <= Len(s)
    ensures k < |s| ==> Len(s[..k]) < Len(s)
  {
    if k == |s| {
      assert s[..k] == s;
    } else {
      LenMonotone(s[..|s| - 1], k);
      assert s[..|s| - 1][..k] == s[..k];
    }
  }

  lemma {:induction false} EncodePrefix(s: string, k: nat)
    requires k <= |s|
    ensures Len(s[..k]) <= Len(s) && Encode(s)[..Len(s[..k])] == Encode(s[..k])
  {
    LenMonotone(s, k);
    if k == |s| {
      assert s[..k] == s;
    } else {
      EncodePrefix(s[..|s| - 1], k);
      LenMonotone(s[..|s| - 1], k);
      assert s[..|s| - 1][..k] == s[..k];
    }
  }

  ghost predicate EndsPrefix(s: string, index: nat) {
    exists k :: 0 <= k <= |s| && Len(s[..k]) == index
  }

  lemma EndsPrefixOneMore(front: string, c: char, index: nat)
    ensures EndsPrefix(front + [c], index) <==> EndsPrefix(front, index) || index == Len(front + [c])
  {
    var s := front + [c];
    assert forall k :: 0 <= k <= |front| ==> front[..k] == s[..k];
    assert s[..|s|] == s;
  }

  lemma EndsPrefixBounded(s: string, index: nat)
    requires EndsPrefix(s, index)
    ensures index <= Len(s)
  {
    var k :| 0 <= k <= |s| && Len(s[..k]) == index;
    LenMonotone(s, k);
  }

  lemma BoundaryOneMore(b: Text, more: Text, index: nat)
    requires more != [] && !IsContinuation(more[0]) && forall i :: 1 <= i < |more| ==> IsContinuation(more[i])
    requires index <= |b| + |more|
    ensures IsCharBoundary(b + more, index) <==> (index <= |b| && IsCharBoundary(b, index)) || index == |b| + |more|
  {
  }

  /** Boundaries are exactly the ends of whole-character prefixes. */
  lemma {:induction false} BoundaryIff(s: string, index: nat)
    requires index <= Len(s)
    ensures IsCharBoundary(Encode(s), index) <==> EndsPrefix(s, index)
  {
    if s == [] {
      assert s[..0] == [];
    } else {
      var front, c := s[..|s| - 1], s[|s| - 1];
      assert s == front + [c];
      EndsPrefixOneMore(front, c, index);
      BoundaryOneMore(Encode(front), EncodeChar(c), index);
      if index <= Len(front) {
        BoundaryIff(front, index);
      } else if EndsPrefix(front, index) {
        EndsPrefixBounded(front, index);
      }
    }
  }

  // ---- clamping ----

  /** `replace('\0', U+FFFD)`. */
  function Cleaned(s: string): (r: string)
    ensures |r| == |s| && '\0' !in r
    ensures forall i :: 0 <= i < |s| ==> r[i] == if s[i] == '\0' then '\U{FFFD}' else s[i]
  {
    seq(|s|, i requires 0 <= i < |s| => if s[i] == '\0' then '\U{FFFD}' else s[i])
  }

  /** `kept` is the longest whole-character prefix of `s` within `limit` bytes. */
  ghost predicate LongestWithin(kept: string, s: string, limit: nat) {
    && kept <= s && Len(kept) <= limit
    && forall k :: |kept| < k <= |s| ==> Len(s[..k]) > limit
  }

  function LongestPrefix(s: string, limit: nat): (kept: string)
    ensures LongestWithin(kept, s, limit)
  {
    if Len(s) <= limit then s
    else
      assert s[..|s|] == s;
      assert forall k :: 0 <= k < |s| ==> s[..|s| - 1][..k] == s[..k];
      LongestPrefix(s[..|s| - 1], limit)
  }

  /** What a message is clamped to: the longest prefix of the cleaned text that fits. */
  function Clamped(message: string): string {
    LongestPrefix(Cleaned(message), MAX_HEALTH_MESSAGE_BYTES)
  }

  /** Where the search for a boundary stops, it has found the end of the longest prefix. */
  lemma BoundaryEndsLongest(s: string, limit: nat, end: nat)
    requires Len(LongestPrefix(s, limit)) <= end <= limit && end <= Len(s)
    ensures IsCharBoundary(Encode(s), end) <==> end == Len(LongestPrefix(s, limit))
  {
    var kept := LongestPrefix(s, limit);
    assert kept == s[..|kept|];
    BoundaryIff(s, end);
    if EndsPrefix(s, end) {
      var k :| 0 <= k <= |s| && Len(s[..k]) == end;
      LenMonotone(kept, k);
      assert kept[..k] == s[..k];
    }
  }

  /** Clamp a message to the bytes of the longest whole-character prefix of the cleaned text that fits. */
  method SanitizeHealthMessage(message: string) returns (bytes: Text)
    ensures bytes == Encode(Clamped(message))
  {
    var cleaned := Cleaned(message);
    var b := Encode(cleaned);
    if |b| <= MAX_HEALTH_MESSAGE_BYTES {
      return b;
    }
    var end := MAX_HEALTH_MESSAGE_BYTES;
    while !IsCharBoundary(b, end)
      invariant Len(Clamped(message)) <= end <= MAX_HEALTH_MESSAGE_BYTES
      decreases end
    {
      BoundaryEndsLongest(cleaned, MAX_HEALTH_MESSAGE_BYTES, end);
      end := end - 1;
    }
    BoundaryEndsLongest(cleaned, MAX_HEALTH_MESSAGE_BYTES, end);
    assert cleaned[..|Clamped(message)|] == Clamped(message);
    EncodePrefix(cleaned, |Clamped(message)|);
    return b[..end];
  }

  /** The longest fitting prefix is unique, and fewer than four bytes are lost to the boundary. */
  lemma ClampIsTight(message: string, other: string)
    ensures LongestWithin(other, Cleaned(message), MAX_HEALTH_MESSAGE_BYTES) ==> other == Clamped(message)
    ensures Clamped(message) != Cleaned(message) ==> Len(Clamped(message)) > MAX_HEALTH_MESSAGE_BYTES - 4
  {
    var s, kept := Cleaned(message), Clamped(message);
    assert kept == s[..|kept|];
    if LongestWithin(other, s, MAX_HEALTH_MESSAGE_BYTES) {
      assert other == s[..|other|];
    }
    if kept != s {
      assert Len(s[..|kept| + 1]) > MAX_HEALTH_MESSAGE_BYTES;
      assert s[..|kept| + 1][..|kept|] == kept;
    }
  }

  /** Clamping what was clamped changes nothing. */
  lemma ClampIsIdempotent(message: string)
    ensures Clamped(Clamped(message)) == Clamped(message)
  {
    var kept := Clamped(message);
    assert forall i :: 0 <= i < |kept| ==> kept[i] == Cleaned(message)[i];
    assert Cleaned(kept) == kept;
  }

  // ---- the envelope ----

  datatype ReadinessState = Ready | Warming | Failed

  datatype Category = WarmingCategory | CollectorFailure | NotServing

  predicate CategoryAllowed(state: ReadinessState, category: Option<Category>) {
    match state
    case Ready => category.None?
    case Warming => category == Some(WarmingCategory)
    case Failed => category == Some(CollectorFailure) || category == Some(NotServing)
  }

  datatype MessageViolation = TooLong | ContainsNul

  function MessageViolationOf(message: Text): Option<MessageViolation> {
    if |message| > MAX_HEALTH_MESSAGE_BYTES then Some(TooLong)
    else if 0 in message then Some(ContainsNul)
    else None
  }

  /** What a receiver takes for a message: at most 512 bytes, none of them NUL. */
  predicate Deliverable(message: Text) {
    |message| <= 512 && 0 !in message
  }

  /** The snapshot itself is not looked at by the envelope checks. */
  datatype Response<+S> = Response(
    schemaVersion: u16,
    state: ReadinessState,
    category: Option<Category>,
    message: Option<Text>,
    snapshot: Option<S>)

  datatype Rejection =
    | UnsupportedSchemaVersion | MissingSnapshot | UnexpectedCategory | UnexpectedMessage
    | UnexpectedSnapshot | WrongCategory | BadMessage(violation: MessageViolation)

  /** The checks a received envelope goes through, in order. */
  function Rejects<S>(r: Response<S>): Option<Rejection> {
    if r.schemaVersion != SCHEMA_VERSION then Some(UnsupportedSchemaVersion)
    else if r.state.Ready? && r.snapshot.None? then Some(MissingSnapshot)
    else if r.state.Ready? && r.category.Some? then Some(UnexpectedCategory)
    else if r.state.Ready? && r.message.Some? then Some(UnexpectedMessage)
    else if !r.state.Ready? && r.snapshot.Some? then Some(UnexpectedSnapshot)
    else if !r.state.Ready? && !CategoryAllowed(r.state, r.category) then Some(WrongCategory)
    else if r.message.Some? && MessageViolationOf(r.message.value).Some? then
      Some(BadMessage(MessageViolationOf(r.message.value).value))
    else None
  }

  /** Acceptance without the order of the checks: a coherent triple of state, category and contents. */
  lemma AcceptedIff<S>(r: Response<S>)
    ensures Rejects(r).None? <==>
              && r.schemaVersion == 1
              && (match r.state
                  case Ready => r.snapshot.Some? && r.category.None? && r.message.None?
                  case Warming => r.snapshot.None? && r.category == Some(WarmingCategory)
                  case Failed => r.snapshot.None? && (r.category == Some(CollectorFailure) || r.category == Some(NotServing)))
              && (r.message.Some? ==> Deliverable(r.message.value))
  {
  }

  /** Which reason is given: the first that applies, in the order version, snapshot, category, message. */
  lemma RejectedBecause<S>(r: Response<S>)
    ensures Rejects(r) == Some(UnsupportedSchemaVersion) <==> r.schemaVersion != 1
    ensures Rejects(r) == Some(MissingSnapshot) <==> r.schemaVersion == 1 && r.state.Ready? && r.snapshot.None?
    ensures Rejects(r) == Some(UnexpectedSnapshot) <==> r.schemaVersion == 1 && !r.state.Ready? && r.snapshot.Some?
    ensures Rejects(r) == Some(UnexpectedCategory) <==> r.schemaVersion == 1 && r.state.Ready? && r.snapshot.Some? && r.category.Some?
    ensures Rejects(r) == Some(UnexpectedMessage) <==>
              r.schemaVersion == 1 && r.state.Ready? && r.snapshot.Some? && r.category.None? && r.message.Some?
    ensures Rejects(r) == Some(WrongCategory) <==>
              && r.schemaVersion == 1 && !r.state.Ready? && r.snapshot.None?
              && (r.category.None? || (r.state.Warming? <==> !r.category.value.WarmingCategory?))
    ensures Rejects(r) == Some(BadMessage(TooLong)) ==> r.message.Some? && |r.message.value| > 512
    ensures Rejects(r) == Some(BadMessage(ContainsNul)) ==> r.message.Some? && |r.message.value| <= 512 && 0 in r.message.value
  {
  }

  lemma {:induction false} CleanHasNoZeroByte(s: string)
    requires '\0' !in s
    ensures 0 !in Encode(s)
  {
    if s != [] {
      CleanHasNoZeroByte(s[..|s| - 1]);
      var c := s[|s| - 1];
      assert c != '\0';
      assert forall b :: b in EncodeChar(c) ==> b != 0;
    }
  }

  lemma ClampedIsWireValid(message: string)
    ensures MessageViolationOf(Encode(Clamped(message))).None?
  {
    var kept := Clamped(message);
    assert forall i :: 0 <= i < |kept| ==> kept[i] == Cleaned(message)[i];
    CleanHasNoZeroByte(kept);
  }

  method WarmingWithMessage<S>(message: string) returns (r: Response<S>)
    ensures r.state == Warming && r.message == Some(Encode(Clamped(message)))
    ensures Rejects(r).None?
  {
    var sanitized := SanitizeHealthMessage(message);
    ClampedIsWireValid(message);
    r := Response(SCHEMA_VERSION, Warming, Some(WarmingCategory), Some(sanitized), None);
  }

  /** Accepted back unless the category given is the warming one, which a failure may not carry. */
  method MakeFailed<S>(category: Category, message: string) returns (r: Response<S>)
    ensures r.state == Failed && r.category == Some(category) && r.message == Some(Encode(Clamped(message)))
    ensures Rejects(r) == if category == WarmingCategory then Some(WrongCategory) else None
  {
    var sanitized := SanitizeHealthMessage(message);
    ClampedIsWireValid(message);
    r := Response(SCHEMA_VERSION, Failed, Some(category), Some(sanitized), None);
  }

  /** The strict constructor refuses exactly the messages the receiver would refuse. */
  function TryWarmingWithMessage<S>(message: Text): (r: Option<Response<S>>)
    ensures r.Some? <==> Deliverable(message)
    ensures r.Some? ==> Rejects(r.value).None? && r.value.message == Some(message)
  {
    if MessageViolationOf(message).Some? then None
    else Some(Response(SCHEMA_VERSION, Warming, Some(WarmingCategory), Some(message), None))
  }

  /**
   * The other strict constructor checks the message only: it refuses every message the receiver would refuse,
   * and still builds, for the warming category, an envelope that no receiver accepts.
   */
  function TryFailed<S>(category: Category, message: Text): (r: Option<Response<S>>)
    ensures r.Some? <==> Deliverable(message)
    ensures r.Some? ==> r.value.state == Failed && r.value.category == Some(category) && r.value.message == Some(message)
    ensures r.Some? ==> Rejects(r.value) == if category == WarmingCategory then Some(WrongCategory) else None
  {
    if MessageViolationOf(message).Some? then None
    else
      assert category != WarmingCategory ==> CategoryAllowed(Failed, Some(category));
      Some(Response(SCHEMA_VERSION, Failed, Some(category), Some(message), None))
  }
}
