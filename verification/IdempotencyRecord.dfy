/** The stored idempotency record: its printer, its parser, and the key it is stored under. */
module IdempotencyRecord {
  import opened Prelude
  import opened GoTime
  import opened Text

  type Byte = b: int | 0 <= b < 256

  // ----- Base64url without padding (RFC 4648, sections 5 and 3.2) -------------------------------

  predicate InAlphabet(c: char) {
    'A' <= c <= 'Z' || 'a' <= c <= 'z' || '0' <= c <= '9' || c == '-' || c == '_'
  }

  function Sextet(c: char): (v: int)
    requires InAlphabet(c)
    ensures 0 <= v < 64
  {
    if 'A' <= c <= 'Z' then (c - 'A') as int
    else if 'a' <= c <= 'z' then (c - 'a') as int + 26
    else if '0' <= c <= '9' then (c - '0') as int + 52
    else if c == '-' then 62 else 63
  }

  function SextetChar(v: int): (c: char)
    requires 0 <= v < 64
    ensures InAlphabet(c) && Sextet(c) == v
  {
    if v < 26 then 'A' + v as char
    else if v < 52 then 'a' + (v - 26) as char
    else if v < 62 then '0' + (v - 52) as char
    else if v == 62 then '-' else '_'
  }

  predicate Clean(s: string) {
    forall i :: 0 <= i < |s| ==> InAlphabet(s[i])
  }

  /** Three bytes as four characters. */
  function EncodeGroup(a: Byte, b: Byte, c: Byte): (s: string)
    ensures Clean(s) && |s| == 4
  {
    [SextetChar(a / 4), SextetChar(a % 4 * 16 + b / 16), SextetChar(b % 16 * 4 + c / 64), SextetChar(c % 64)]
  }

  /** A last group of fewer bytes gives fewer characters; the missing bits are zero. */
  function EncodeTail(b: seq<Byte>): (s: string)
    requires |b| < 3
    ensures Clean(s) && |s| % 4 != 1 && (|s| < 4)
  {
    if b == [] then ""
    else if |b| == 1 then EncodeGroup(b[0], 0, 0)[..2]
    else EncodeGroup(b[0], b[1], 0)[..3]
  }

  lemma GroupBefore(group: string, rest: string)
    requires Clean(group) && |group| == 4 && Clean(rest) && |rest| % 4 != 1
    ensures Clean(group + rest) && |group + rest| % 4 != 1
  {}

  function EncodeBase64(b: seq<Byte>): (s: string)
    ensures Clean(s) && |s| % 4 != 1
  {
    hide EncodeGroup, EncodeTail, Clean;
    if |b| < 3 then EncodeTail(b)
    else
      var group, rest := EncodeGroup(b[0], b[1], b[2]), EncodeBase64(b[3..]);
      GroupBefore(group, rest);
      group + rest
  }

  function DecodeGroup(s: string): seq<Byte>
    requires Clean(s) && |s| == 4
  {
    [Sextet(s[0]) * 4 + Sextet(s[1]) / 16,
     Sextet(s[1]) % 16 * 16 + Sextet(s[2]) / 4,
     Sextet(s[2]) % 4 * 64 + Sextet(s[3])]
  }

  /** The unused low bits of a short group are ignored. */
  function DecodeTail(s: string): seq<Byte>
    requires Clean(s) && |s| < 4 && |s| != 1
  {
    if s == "" then []
    else if |s| == 2 then DecodeGroup(s + "AA")[..1]
    else DecodeGroup(s + "A")[..2]
  }

  function DecodeGroups(s: string): seq<Byte>
    requires Clean(s) && |s| % 4 != 1
  {
    if |s| < 4 then DecodeTail(s) else DecodeGroup(s[..4]) + DecodeGroups(s[4..])
  }

  /** The decoder skips line breaks before anything else. */
  function StripNewlines(s: string): string {
    if s == "" then ""
    else (if s[0] in {'\r', '\n'} then "" else [s[0]]) + StripNewlines(s[1..])
  }

  function DecodeBase64(s: string): Option<seq<Byte>> {
    var t := StripNewlines(s);
    if Clean(t) && |t| % 4 != 1 then Some(DecodeGroups(t)) else None
  }

  lemma {:induction false} StripConcat(a: string, b: string)
    ensures StripNewlines(a + b) == StripNewlines(a) + StripNewlines(b)
  {
    if a == "" {
      assert a + b == b;
    } else {
      assert (a + b)[1..] == a[1..] + b;
      StripConcat(a[1..], b);
    }
  }

  /** A line break anywhere makes no difference. */
  lemma LineBreaksIgnored(a: string, c: char, b: string)
    requires c == '\r' || c == '\n'
    ensures DecodeBase64(a + [c] + b) == DecodeBase64(a + b)
  {
    StripConcat(a + [c], b);
    StripConcat(a, [c]);
    StripConcat(a, b);
    assert [c][1..] == "" && StripNewlines([c]) == "";
    assert StripNewlines(a + [c] + b) == StripNewlines(a + b);
  }

  lemma {:induction false} CleanHasNoNewlines(s: string)
    requires Clean(s)
    ensures StripNewlines(s) == s
  {
    if s != "" {
      CleanHasNoNewlines(s[1..]);
      assert s == [s[0]] + s[1..];
    }
  }

  /** Three bytes cut into four six-bit numbers and put together again. */
  lemma SextetsSplit(a: Byte, b: Byte, c: Byte)
    ensures a / 4 < 64 && a % 4 * 16 + b / 16 < 64 && b % 16 * 4 + c / 64 < 64
    ensures a / 4 * 4 + (a % 4 * 16 + b / 16) / 16 == a
    ensures (a % 4 * 16 + b / 16) % 16 * 16 + (b % 16 * 4 + c / 64) / 4 == b
    ensures (b % 16 * 4 + c / 64) % 4 * 64 + c % 64 == c
  {}

  lemma GroupRoundTrip(a: Byte, b: Byte, c: Byte)
    ensures DecodeGroup(EncodeGroup(a, b, c)) == [a, b, c]
  {
    hide Sextet, SextetChar, InAlphabet, Clean;
    SextetsSplit(a, b, c);
    var v := [a / 4, a % 4 * 16 + b / 16, b % 16 * 4 + c / 64, c % 64];
    var s := EncodeGroup(a, b, c);
    assert forall i :: 0 <= i < 4 ==> s[i] == SextetChar(v[i]);
    assert Sextet(s[0]) == v[0] && Sextet(s[1]) == v[1] && Sextet(s[2]) == v[2] && Sextet(s[3]) == v[3];
  }

  lemma TailRoundTrip(b: seq<Byte>)
    requires |b| < 3
    ensures DecodeTail(EncodeTail(b)) == b
  {
    assert SextetChar(0) == 'A';
    if |b| == 1 {
      GroupRoundTrip(b[0], 0, 0);
      assert EncodeTail(b) + "AA" == EncodeGroup(b[0], 0, 0);
    } else if |b| == 2 {
      GroupRoundTrip(b[0], b[1], 0);
      assert EncodeTail(b) + "A" == EncodeGroup(b[0], b[1], 0);
    }
    hide Sextet, SextetChar, InAlphabet, DecodeGroup;
  }

  lemma {:induction false} GroupsRoundTrip(b: seq<Byte>)
    ensures DecodeGroups(EncodeBase64(b)) == b
  {
    hide EncodeGroup, DecodeGroup, EncodeTail, DecodeTail, InAlphabet, Clean;
    if |b| < 3 {
      TailRoundTrip(b);
    } else {
      GroupsRoundTrip(b[3..]);
      GroupRoundTrip(b[0], b[1], b[2]);
      var s := EncodeBase64(b);
      assert s[..4] == EncodeGroup(b[0], b[1], b[2]) && s[4..] == EncodeBase64(b[3..]);
      assert b == [b[0], b[1], b[2]] + b[3..];
    }
  }

  lemma Base64RoundTrip(b: seq<Byte>)
    ensures DecodeBase64(EncodeBase64(b)) == Some(b)
  {
    CleanHasNoNewlines(EncodeBase64(b));
    GroupsRoundTrip(b);
  }

  /** Table 2 of RFC 4648 by code points: upper case, lower case, digits, minus and underscore. */
  lemma SextetsAreAlphabet(v: nat)
    requires v < 64
    ensures var n := SextetChar(v) as int;
            if v <= 25 then n == 65 + v else if v <= 51 then n == 71 + v else if v <= 61 then n == v - 4
            else n == (if v == 62 then 45 else 95)
  {}

  /** The 24 bits of a group, most significant first, are its four numbers of six bits. */
  lemma GroupBits(a: Byte, b: Byte, c: Byte)
    ensures var s := EncodeGroup(a, b, c);
            65536 * a + 256 * b + c == 262144 * Sextet(s[0]) + 4096 * Sextet(s[1]) + 64 * Sextet(s[2]) + Sextet(s[3])
  {
    SextetsSplit(a, b, c);
    var v := [a / 4, a % 4 * 16 + b / 16, b % 16 * 4 + c / 64, c % 64];
    var s := EncodeGroup(a, b, c);
    assert s == [SextetChar(v[0]), SextetChar(v[1]), SextetChar(v[2]), SextetChar(v[3])];
    assert Sextet(s[0]) == v[0] && Sextet(s[1]) == v[1] && Sextet(s[2]) == v[2] && Sextet(s[3]) == v[3];
    hide EncodeGroup, SextetChar, Sextet, InAlphabet, Clean;
    GroupValue(a, b, c);
  }

  lemma GroupValue(a: Byte, b: Byte, c: Byte)
    ensures 65536 * a + 256 * b + c ==
            262144 * (a / 4) + 4096 * (a % 4 * 16 + b / 16) + 64 * (b % 16 * 4 + c / 64) + c % 64
  {
    assert a == a / 4 * 4 + a % 4 && b == b / 16 * 16 + b % 16 && c == c / 64 * 64 + c % 64;
  }

  /** No padding: four characters for three bytes, two or three for the rest. */
  lemma {:induction false} EncodedLength(b: seq<Byte>)
    ensures |EncodeBase64(b)| == (4 * |b| + 2) / 3
  {
    hide EncodeGroup, Clean;
    if |b| >= 3 { EncodedLength(b[3..]); }
  }

  // ----- Decimal status codes ------------------------------------------------------------------

  /** `strconv.Atoi`: an optional sign, at least one digit, and a value that fits in 64 bits. */
  function Atoi(s: string): Option<int> {
    if s == "" then None else
    var signed := s[0] in {'+', '-'};
    var digits := if signed then s[1..] else s;
    if digits == "" || !AllDigits(digits) then None else
    var n: int := DigitsValue(digits);
    var n := if s[0] == '-' then -n else n;
    if MIN_INT64 <= n <= MAX_INT64 then Some(n) else None
  }

  lemma AtoiItoa(n: int)
    requires MIN_INT64 <= n <= MAX_INT64
    ensures Atoi(Itoa(n)) == Some(n)
  {
    hide DigitsValue, AllDigits;
    var digits := Digits(if n < 0 then -n else n);
    DigitsRoundTrip(if n < 0 then -n else n);
    StartsWithDigit(digits);
    if n < 0 {
      assert Itoa(n)[1..] == digits;
    }
  }

  lemma StartsWithDigit(s: string)
    requires s != "" && AllDigits(s)
    ensures s[0] !in {'+', '-'}
  {
    assert IsDigit(s[0]);
  }

  /** Digits with or without a sign are read by their value, if it fits; anything else is an error. */
  lemma AtoiReads(digits: string)
    requires digits != "" && AllDigits(digits)
    ensures var n: int := DigitsValue(digits);
            && Atoi(digits) == (if n <= MAX_INT64 then Some(n) else None)
            && Atoi("+" + digits) == (if n <= MAX_INT64 then Some(n) else None)
            && Atoi("-" + digits) == (if n <= TWO_63 then Some(-n) else None)
  {
    StartsWithDigit(digits);
    assert ("+" + digits)[1..] == digits && ("-" + digits)[1..] == digits;
    hide AllDigits, DigitsValue;
  }

  lemma AtoiRefuses(s: string)
    requires Atoi(s).Some?
    ensures exists digits :: digits != "" && AllDigits(digits) && s in {digits, "+" + digits, "-" + digits}
  {
    var digits := if s[0] in {'+', '-'} then s[1..] else s;
    assert s == digits || s == [s[0]] + digits;
    assert s in {digits, "+" + digits, "-" + digits};
  }

  // ----- The record ----------------------------------------------------------------------------

  const IN_PROGRESS := "IN_PROGRESS"
  const COMPLETED := "COMPLETED"
  const SEPARATOR := '|'

  datatype Record = InProgress | Completed(code: int, body: seq<Byte>) | Malformed

  function EncodeCompleted(code: int, body: seq<Byte>): string {
    COMPLETED + [SEPARATOR] + Itoa(code) + [SEPARATOR] + EncodeBase64(body)
  }

  /** The part before the first separator, and the part after it if there is one. */
  function Cut(s: string): (r: (string, Option<string>))
    ensures r.1.Some? ==> |r.1.value| < |s|
  {
    if s == "" then ("", None)
    else if s[0] == SEPARATOR then ("", Some(s[1..]))
    else
      var (head, tail) := Cut(s[1..]);
      ([s[0]] + head, tail)
  }

  /** Known records and keys, letter for letter. */
  lemma KnownRecords()
    ensures Itoa(204) == "204" && Itoa(-7) == "-7"
    ensures EncodeCompleted(204, []) == "COMPLETED|204|"
    ensures IN_PROGRESS == "IN_PROGRESS"
  {
    assert Digits(2) == "2" && Digits(20) == Digits(2) + "0" && Digits(204) == Digits(20) + "4";
    assert Digits(7) == "7";
    hide Digits;
  }

  /** `State`: a three-way split on the separator, then both fields are parsed. */
  function DecodeRecord(value: string): Record {
    if value == IN_PROGRESS then InProgress else
    var (status, rest) := Cut(value);
    if rest.None? then Malformed else
    var (codeText, bodyText) := Cut(rest.value);
    if bodyText.None? || status != COMPLETED then Malformed else
    var code, body := Atoi(codeText), DecodeBase64(bodyText.value);
    if code.None? || body.None? then Malformed else Completed(code.value, body.value)
  }

  lemma {:induction false} CutAtSeparator(head: string, tail: string)
    requires SEPARATOR !in head
    ensures Cut(head + [SEPARATOR] + tail) == (head, Some(tail))
  {
    var s := head + [SEPARATOR] + tail;
    if head == "" {
      assert s[1..] == tail;
    } else {
      assert s[1..] == head[1..] + [SEPARATOR] + tail;
      CutAtSeparator(head[1..], tail);
      assert head == [head[0]] + head[1..];
    }
  }

  lemma {:induction false} CutJoins(s: string)
    ensures var (head, tail) := Cut(s);
            && SEPARATOR !in head
            && s == head + (if tail.Some? then [SEPARATOR] + tail.value else "")
  {
    if s != "" && s[0] != SEPARATOR {
      CutJoins(s[1..]);
      var (head, tail) := Cut(s[1..]);
      assert s == [s[0]] + s[1..];
    }
  }

  lemma CutTwice(a: string, b: string, c: string)
    requires SEPARATOR !in a && SEPARATOR !in b
    ensures Cut(a + [SEPARATOR] + b + [SEPARATOR] + c) == (a, Some(b + [SEPARATOR] + c))
    ensures Cut(b + [SEPARATOR] + c) == (b, Some(c))
  {
    assert a + [SEPARATOR] + b + [SEPARATOR] + c == a + [SEPARATOR] + (b + [SEPARATOR] + c);
    CutAtSeparator(a, b + [SEPARATOR] + c);
    CutAtSeparator(b, c);
  }

  /** A completed record as text: its two fields, separated, each readable by itself. */
  ghost predicate CompletedText(value: string, codeText: string, bodyText: string, code: int, body: seq<Byte>) {
    && value == "COMPLETED|" + codeText + "|" + bodyText && SEPARATOR !in codeText
    && Atoi(codeText) == Some(code) && DecodeBase64(bodyText) == Some(body)
  }

  /** Exactly which texts are read as completed, and as which code and body. */
  lemma CompletedIff(value: string, code: int, body: seq<Byte>)
    ensures DecodeRecord(value) == Completed(code, body) <==>
            exists codeText, bodyText :: CompletedText(value, codeText, bodyText, code, body)
  {
    hide Cut, Atoi, DecodeBase64;
    if DecodeRecord(value) == Completed(code, body) {
      var rest := Cut(value).1.value;
      CutJoins(value);
      CutJoins(rest);
      var codeText, bodyText := Cut(rest).0, Cut(rest).1.value;
      assert value == "COMPLETED" + "|" + (codeText + "|" + bodyText);
      assert CompletedText(value, codeText, bodyText, code, body);
    }
    if exists codeText, bodyText :: CompletedText(value, codeText, bodyText, code, body) {
      var codeText, bodyText :| CompletedText(value, codeText, bodyText, code, body);
      assert value == COMPLETED + [SEPARATOR] + codeText + [SEPARATOR] + bodyText;
      CutTwice(COMPLETED, codeText, bodyText);
      assert value != IN_PROGRESS by { assert value[0] == 'C' && IN_PROGRESS[0] == 'I'; }
    }
  }

  /** The two states are never confused: only the in-progress text is read as in progress. */
  lemma RecordsNeverConfused(value: string, code: int, body: seq<Byte>)
    ensures DecodeRecord(value) == InProgress <==> value == IN_PROGRESS
    ensures EncodeCompleted(code, body) != IN_PROGRESS
  {}

  lemma ItoaHasNoSeparator(n: int)
    ensures SEPARATOR !in Itoa(n)
  {}

  /** Reading back what `Complete` writes gives the same code and body, for every code and body. */
  lemma RecordRoundTrip(code: int, body: seq<Byte>)
    requires MIN_INT64 <= code <= MAX_INT64
    ensures DecodeRecord(EncodeCompleted(code, body)) == Completed(code, body)
  {
    hide Cut, Itoa, Atoi, EncodeBase64, DecodeBase64;
    ItoaHasNoSeparator(code);
    AtoiItoa(code);
    Base64RoundTrip(body);
    RecordsNeverConfused(IN_PROGRESS, code, body);
    CutTwice(COMPLETED, Itoa(code), EncodeBase64(body));
  }

  // ----- Keys ----------------------------------------------------------------------------------

  /** The authenticated player, or anybody without a valid claim. */
  datatype Actor = Anonymous | Player(id: int)

  /** `playerID`: a claim counts only if its user id is at least 1. */
  function ActorOf(claim: Option<int>): Actor {
    if claim.Some? && claim.value >= 1 then Player(claim.value) else Anonymous
  }

  const USER_SCOPE := "idempotency:user:"
  const ANON_SCOPE := "idempotency:anon:"

  function StoreKey(a: Actor, rawKey: string): string {
    match a
    case Player(id) => USER_SCOPE + (Itoa(id) + ":" + rawKey)
    case Anonymous => ANON_SCOPE + rawKey
  }

  predicate ValidKeyChar(c: char) {
    'a' <= c <= 'z' || 'A' <= c <= 'Z' || '0' <= c <= '9' || c in {'-', '_', '.', ':'}
  }

  predicate ValidKey(rawKey: string) {
    rawKey != "" && |rawKey| <= 128 && forall i :: 0 <= i < |rawKey| ==> ValidKeyChar(rawKey[i])
  }

  lemma KnownKeys()
    ensures StoreKey(Player(7), "k:1") == "idempotency:user:7:k:1"
    ensures StoreKey(Anonymous, "k:1") == "idempotency:anon:k:1"
  {
    assert Itoa(7) == "7";
    hide Itoa;
    assert "7" + ":" + "k:1" == "7:k:1";
  }

  /** The characters of a key by code points: lower case, upper case, digits, and "-", ".", ":", "_". */
  predicate KeyCodePoint(n: int) {
    97 <= n <= 122 || 65 <= n <= 90 || 48 <= n <= 58 || n in {45, 46, 95}
  }

  /** A key is admitted exactly if it has 1 to 128 characters, all of them listed. */
  lemma ValidKeyIff(rawKey: string)
    ensures ValidKey(rawKey) <==>
            1 <= |rawKey| <= 128 && forall i :: 0 <= i < |rawKey| ==> KeyCodePoint(rawKey[i] as int)
  {
    forall i | 0 <= i < |rawKey| ensures ValidKeyChar(rawKey[i]) <==> KeyCodePoint(rawKey[i] as int) {}
  }

  /** The length limit itself is allowed, one more is not; and a key may use every class of characters. */
  lemma KnownKeyVerdicts(c: char)
    requires ValidKeyChar(c)
    ensures ValidKey(seq(128, _ => c)) && !ValidKey(seq(129, _ => c))
    ensures ValidKey("aZ09-_.:") && !ValidKey("a b") && !ValidKey("a/b") && !ValidKey("")
  {
    assert "a b"[1] == ' ' && "a/b"[1] == '/';
  }

  /** The part before the first colon is unique. */
  lemma {:induction false} ColonPrefixUnique(a: string, r: string, b: string, t: string)
    requires ':' !in a && ':' !in b && a + ":" + r == b + ":" + t
    ensures a == b && r == t
  {
    var s, s' := a + ":" + r, b + ":" + t;
    assert s[0] == s'[0];
    if a != "" && b != "" {
      assert s[1..] == a[1..] + ":" + r && s'[1..] == b[1..] + ":" + t;
      ColonPrefixUnique(a[1..], r, b[1..], t);
      assert a == [a[0]] + a[1..] && b == [b[0]] + b[1..];
    } else {
      assert s[1..] == r && s'[1..] == t;
    }
  }

  lemma ItoaHasNoColon(n: int)
    ensures ':' !in Itoa(n)
  {}

  /** The same player, or both without a valid claim. */
  predicate SameActor(claim: Option<int>, claim': Option<int>) {
    var valid, valid' := claim.Some? && claim.value >= 1, claim'.Some? && claim'.value >= 1;
    (valid && valid' && claim.value == claim'.value) || (!valid && !valid')
  }

  lemma SamePrefix(p: string, r: string, p': string, r': string)
    requires |p| == |p'| && p + r == p' + r'
    ensures p == p' && r == r'
  {
    assert (p + r)[..|p|] == p && (p' + r')[..|p|] == p';
    assert (p + r)[|p|..] == r && (p' + r')[|p|..] == r';
  }

  lemma ScopesDiffer()
    ensures |USER_SCOPE| == |ANON_SCOPE| && USER_SCOPE != ANON_SCOPE
  {
    assert USER_SCOPE[12] != ANON_SCOPE[12];
  }

  /** Scopes, player ids and raw keys can be told apart in a store key. */
  lemma StoreKeyDecides(a: Actor, rawKey: string, b: Actor, rawKey': string)
    requires StoreKey(a, rawKey) == StoreKey(b, rawKey')
    ensures a == b && rawKey == rawKey'
  {
    ScopesDiffer();
    hide Itoa, AllDigits;
    SamePrefix(if a.Player? then USER_SCOPE else ANON_SCOPE, if a.Player? then Itoa(a.id) + ":" + rawKey else rawKey,
               if b.Player? then USER_SCOPE else ANON_SCOPE, if b.Player? then Itoa(b.id) + ":" + rawKey' else rawKey');
    if a.Player? && b.Player? { PlayerKeyDecides(a.id, rawKey, b.id, rawKey'); }
  }

  lemma PlayerKeyDecides(id: int, rawKey: string, id': int, rawKey': string)
    requires Itoa(id) + ":" + rawKey == Itoa(id') + ":" + rawKey'
    ensures id == id' && rawKey == rawKey'
  {
    hide Itoa;
    ItoaHasNoColon(id);
    ItoaHasNoColon(id');
    ColonPrefixUnique(Itoa(id), rawKey, Itoa(id'), rawKey');
    ItoaInjective(id, id');
  }

  /**
   * Two requests share a store key if and only if they have the same actor and the same raw key,
   * even though raw keys may themselves contain the separator ':'.
   */
  lemma StoreKeyInjective(claim: Option<int>, rawKey: string, claim': Option<int>, rawKey': string)
    ensures StoreKey(ActorOf(claim), rawKey) == StoreKey(ActorOf(claim'), rawKey') <==>
            SameActor(claim, claim') && rawKey == rawKey'
  {
    hide StoreKey;
    if StoreKey(ActorOf(claim), rawKey) == StoreKey(ActorOf(claim'), rawKey') {
      StoreKeyDecides(ActorOf(claim), rawKey, ActorOf(claim'), rawKey');
    }
  }
}
