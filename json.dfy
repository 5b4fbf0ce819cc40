/** JSON values as Python's `json.loads` returns them, and a decoder and an
    encoder for the one shape the persona prompt asks the model to emit: a
    flat object whose values are numbers, as in `{"comfort": 0.0}`. */
module Json {
  import opened Wrappers

  /** A JSON number: a literal without a fraction decodes to a Python int,
      one with a fraction to a float, kept here exactly as its sign, its
      whole part and its `places` fraction digits read as a number. */
  datatype Num =
    | Int(value: int)
    | Decimal(negative: bool, whole: nat, fraction: nat, places: nat)

  datatype Value =
    | Null
    | Bool(b: bool)
    | Number(n: Num)
    | Str(s: string)
    | Array(items: seq<Value>)
    | Object(members: seq<(string, Value)>)

  /** Python's truth value of a decoded value: `None`, `False`, zero and
      empty containers are false. */
  predicate Truthy(v: Value) {
    match v
    case Null => false
    case Bool(b) => b
    case Number(Int(i)) => i != 0
    case Number(Decimal(_, w, f, _)) => w != 0 || f != 0
    case Str(s) => s != []
    case Array(items) => items != []
    case Object(members) => members != []
  }

  // ---------------------------------------------------------------------
  // Characters and digit strings

  /** The whitespace JSON allows between tokens. */
  predicate IsWs(c: char) {
    c == ' ' || c == '\t' || c == '\n' || c == '\r'
  }

  predicate IsDigit(c: char) {
    '0' <= c <= '9'
  }

  /** Characters a key may hold in this subset: no quote, no escape
      sequence, no control character. */
  predicate IsKeyChar(c: char) {
    c != '"' && c != '\\' && c as int >= 0x20
  }

  predicate AllDigits(s: string) {
    forall k :: 0 <= k < |s| ==> IsDigit(s[k])
  }

  predicate ValidKey(k: string) {
    forall i :: 0 <= i < |k| ==> IsKeyChar(k[i])
  }

  function DigitValue(c: char): nat {
    if IsDigit(c) then c as int - '0' as int else 0
  }

  function Digit(d: nat): (c: char)
    requires d < 10
    ensures IsDigit(c) && DigitValue(c) == d
  {
    ('0' as int + d) as char
  }

  function Pow10(n: nat): (r: nat)
    ensures r >= 1
  {
    if n == 0 then 1 else 10 * Pow10(n - 1)
  }

  /** The number a decimal digit string denotes, most significant first. */
  function DigitsValue(ds: string): nat {
    if ds == [] then 0 else DigitsValue(ds[..|ds| - 1]) * 10 + DigitValue(ds[|ds| - 1])
  }

  /** The shortest decimal spelling of `n`: no leading zero except for 0. */
  function NatDigits(n: nat): (r: string)
    ensures |r| >= 1 && AllDigits(r)
    ensures DigitsValue(r) == n
    ensures (r[0] == '0') == (n == 0)
    ensures n == 0 ==> r == "0"
  {
    if n < 10 then [Digit(n)]
    else
      var init := NatDigits(n / 10);
      var r := init + [Digit(n % 10)];
      assert r[..|r| - 1] == init;
      r
  }

  /** Exactly `width` decimal digits for `v`, padded with leading zeros. */
  function PaddedDigits(v: nat, width: nat): (r: string)
    requires v < Pow10(width)
    ensures |r| == width && AllDigits(r)
    ensures DigitsValue(r) == v
  {
    if width == 0 then []
    else
      assert v / 10 < Pow10(width - 1);
      var init := PaddedDigits(v / 10, width - 1);
      var r := init + [Digit(v % 10)];
      assert r[..|r| - 1] == init;
      r
  }

  // ---------------------------------------------------------------------
  // Decoding

  /** Splits `s` after its longest prefix of Digits characters. */
  function SpanDigits(s: string): (r: (string, string))
    ensures r.0 + r.1 == s
    ensures AllDigits(r.0)
    ensures r.1 == [] || !IsDigit(r.1[0])
  {
    if s != [] && IsDigit(s[0]) then
      var (front, rest) := SpanDigits(s[1..]);
      assert [s[0]] + front + rest == s;
      ([s[0]] + front, rest)
    else ([], s)
  }

  /** Splits `s` after its longest prefix of Key characters. */
  function SpanKey(s: string): (r: (string, string))
    ensures r.0 + r.1 == s
    ensures ValidKey(r.0)
    ensures r.1 == [] || !IsKeyChar(r.1[0])
  {
    if s != [] && IsKeyChar(s[0]) then
      var (front, rest) := SpanKey(s[1..]);
      assert [s[0]] + front + rest == s;
      ([s[0]] + front, rest)
    else ([], s)
  }

  function SkipWs(s: string): (r: string)
    ensures |r| <= |s|
    ensures r == [] || !IsWs(r[0])
  {
    if s != [] && IsWs(s[0]) then SkipWs(s[1..]) else s
  }

  function Signed(negative: bool, magnitude: nat): int {
    if negative then -(magnitude as int) else magnitude
  }

  /** `(0|[1-9][0-9]*)(\.[0-9]+)?`: the whole digits, the fraction digits
      if there is a point, and what follows. */
  function ScanUnsigned(s: string): (r: Option<(string, Option<string>, string)>)
    ensures r.Some? ==> |r.value.2| < |s|
  {
    var (whole, afterWhole) := SpanDigits(s);
    if whole == [] || (whole[0] == '0' && |whole| > 1) then None
    else if afterWhole != [] && afterWhole[0] == '.' then
      var (fraction, rest) := SpanDigits(afterWhole[1..]);
      if fraction == [] then None else Some((whole, Some(fraction), rest))
    else Some((whole, None, afterWhole))
  }

  /** A JSON number without exponent: `-?(0|[1-9][0-9]*)(\.[0-9]+)?`. */
  function ParseNumber(s: string): (r: Option<(Num, string)>)
    ensures r.Some? ==> |r.value.1| < |s|
  {
    var negative := s != [] && s[0] == '-';
    match ScanUnsigned(if negative then s[1..] else s)
    case None => None
    case Some((whole, None, rest)) =>
      Some((Int(Signed(negative, DigitsValue(whole))), rest))
    case Some((whole, Some(fraction), rest)) =>
      Some((Decimal(negative, DigitsValue(whole), DigitsValue(fraction), |fraction|), rest))
  }

  /** A quoted key without escape sequences. */
  function ParseKey(s: string): (r: Option<(string, string)>)
    ensures r.Some? ==> |r.value.1| < |s|
  {
    if s == [] || s[0] != '"' then None
    else
      var (key, rest) := SpanKey(s[1..]);
      if rest != [] && rest[0] == '"' then Some((key, rest[1..])) else None
  }

  /** `"key" : number`, with whitespace around the colon. */
  function ParseMember(s: string): (r: Option<((string, Value), string)>)
    ensures r.Some? ==> |r.value.1| < |s|
  {
    match ParseKey(s)
    case None => None
    case Some((key, afterKey)) =>
      var colon := SkipWs(afterKey);
      if colon == [] || colon[0] != ':' then None
      else
        match ParseNumber(SkipWs(colon[1..]))
        case None => None
        case Some((n, rest)) => Some(((key, Number(n)), rest))
  }

  /** One or more members separated by commas; what follows is returned with
      its leading whitespace skipped. */
  function ParseMembers(s: string): (r: Option<(seq<(string, Value)>, string)>)
    ensures r.Some? ==> |r.value.1| < |s| && r.value.0 != []
    ensures r.Some? ==> forall i :: 0 <= i < |r.value.0| ==> r.value.0[i].1.Number?
    decreases |s|
  {
    match ParseMember(s)
    case None => None
    case Some((member, afterMember)) =>
      var next := SkipWs(afterMember);
      if next != [] && next[0] == ',' then
        match ParseMembers(SkipWs(next[1..]))
        case None => None
        case Some((more, rest)) => Some(([member] + more, rest))
      else Some(([member], next))
  }

  /** The subset decoder: a whole text holding one object of numbers. Any
      other text is refused, as `json.loads` raises on malformed input. */
  function Decode(s: string): (r: Option<Value>)
    ensures r.Some? ==> r.value.Object?
    ensures r.Some? ==> forall i :: 0 <= i < |r.value.members| ==> r.value.members[i].1.Number?
  {
    var open := SkipWs(s);
    if open == [] || open[0] != '{' then None
    else
      var body := SkipWs(open[1..]);
      if body != [] && body[0] == '}' then
        if SkipWs(body[1..]) == [] then Some(Object([])) else None
      else
        match ParseMembers(body)
        case None => None
        case Some((members, close)) =>
          if close != [] && close[0] == '}' && SkipWs(close[1..]) == [] then Some(Object(members))
          else None
  }

  // ---------------------------------------------------------------------
  // Encoding, the partner of Decode

  /** A decimal has at least one place, and its fraction fits in them. */
  predicate ValidNum(n: Num) {
    n.Decimal? ==> n.places >= 1 && n.fraction < Pow10(n.places)
  }

  predicate ValidMembers(ms: seq<(string, Num)>) {
    forall i :: 0 <= i < |ms| ==> ValidKey(ms[i].0) && ValidNum(ms[i].1)
  }

  /** Characters a number's spelling is made of. */
  predicate IsNumChar(c: char) {
    IsDigit(c) || c == '-' || c == '.'
  }

  predicate AllNumChars(s: string) {
    forall k :: 0 <= k < |s| ==> IsNumChar(s[k])
  }

  function Abs(i: int): nat {
    if i < 0 then -i else i
  }

  function SignPrefix(negative: bool): (r: string)
    ensures forall k :: 0 <= k < |r| ==> r[k] == '-'
  {
    if negative then "-" else ""
  }

  /** The decimal spelling of a number: a sign, the whole part, and for a
      decimal a point and the fraction padded to its number of places. */
  function EncodeNum(n: Num): (r: string)
    requires ValidNum(n)
    ensures |r| >= 1 && (r[0] == '-' || IsDigit(r[0]))
    ensures AllNumChars(r)
  {
    match n
    case Int(i) => SignPrefix(i < 0) + NatDigits(Abs(i))
    case Decimal(negative, whole, fraction, places) =>
      SignPrefix(negative) + NatDigits(whole) + "." + PaddedDigits(fraction, places)
  }

  function EncodeMember(m: (string, Num)): string
    requires ValidNum(m.1)
  {
    "\"" + m.0 + "\": " + EncodeNum(m.1)
  }

  function EncodeMembers(ms: seq<(string, Num)>): (r: string)
    requires ValidMembers(ms)
    ensures ms != [] ==> |r| >= 1 && r[0] == '"'
  {
    if ms == [] then ""
    else if |ms| == 1 then EncodeMember(ms[0])
    else EncodeMember(ms[0]) + ", " + EncodeMembers(ms[1..])
  }

  /** The text of an object of numbers, members in order. */
  function Encode(ms: seq<(string, Num)>): string
    requires ValidMembers(ms)
  {
    "{" + EncodeMembers(ms) + "}"
  }

  /** The decoded value of an object of numbers. */
  function NumberMembers(ms: seq<(string, Num)>): (r: seq<(string, Value)>)
    ensures |r| == |ms|
  {
    if ms == [] then [] else [(ms[0].0, Number(ms[0].1))] + NumberMembers(ms[1..])
  }

  lemma {:induction false} DigitsStopsAt(a: string, b: string)
    requires AllDigits(a)
    requires b == [] || !IsDigit(b[0])
    ensures SpanDigits(a + b) == (a, b)
  {
    if a == [] {
      assert a + b == b;
    } else {
      assert (a + b)[1..] == a[1..] + b;
      DigitsStopsAt(a[1..], b);
      assert [a[0]] + a[1..] == a;
    }
  }

  lemma {:induction false} KeyStopsAt(a: string, b: string)
    requires ValidKey(a)
    requires b == [] || !IsKeyChar(b[0])
    ensures SpanKey(a + b) == (a, b)
  {
    if a == [] {
      assert a + b == b;
    } else {
      assert (a + b)[1..] == a[1..] + b;
      KeyStopsAt(a[1..], b);
      assert [a[0]] + a[1..] == a;
    }
  }

  lemma {:induction false} SkipWsGap(gap: string, t: string)
    requires forall i :: 0 <= i < |gap| ==> IsWs(gap[i])
    requires t == [] || !IsWs(t[0])
    ensures SkipWs(gap + t) == t
  {
    if gap == [] {
      assert gap + t == t;
    } else {
      assert (gap + t)[1..] == gap[1..] + t;
      SkipWsGap(gap[1..], t);
    }
  }

  lemma ParseNumberRoundTrip(n: Num, rest: string)
    requires ValidNum(n)
    requires rest == [] || (!IsDigit(rest[0]) && rest[0] != '.')
    ensures ParseNumber(EncodeNum(n) + rest) == Some((n, rest))
  {
    match n
    case Int(i) => ParseIntRoundTrip(i, rest);
    case Decimal(negative, w, f, p) => ParseDecimalRoundTrip(negative, w, f, p, rest);
  }

  lemma ScanWholeRoundTrip(whole: string, rest: string)
    requires |whole| >= 1 && AllDigits(whole) && (whole[0] == '0' ==> |whole| == 1)
    requires rest == [] || (!IsDigit(rest[0]) && rest[0] != '.')
    ensures ScanUnsigned(whole + rest) == Some((whole, None, rest))
  {
    DigitsStopsAt(whole, rest);
  }

  lemma ScanDecimalRoundTrip(whole: string, fraction: string, rest: string)
    requires |whole| >= 1 && AllDigits(whole) && (whole[0] == '0' ==> |whole| == 1)
    requires |fraction| >= 1 && AllDigits(fraction)
    requires rest == [] || (!IsDigit(rest[0]) && rest[0] != '.')
    ensures ScanUnsigned(whole + "." + fraction + rest) == Some((whole, Some(fraction), rest))
  {
    var point := "." + (fraction + rest);
    assert whole + "." + fraction + rest == whole + point;
    DigitsStopsAt(whole, point);
    assert point[1..] == fraction + rest;
    DigitsStopsAt(fraction, rest);
  }

  /** Sequence concatenation regrouped to the right; the round-trip proofs
      use it to keep the solver away from the definitions of the pieces. */
  lemma Assoc(a: string, b: string, c: string)
    ensures a + b + c == a + (b + c)
  {
  }

  lemma DropFirst(c: char, x: string)
    ensures ([c] + x)[0] == c && ([c] + x)[1..] == x
  {
  }

  lemma ParseIntRoundTrip(i: int, rest: string)
    requires rest == [] || (!IsDigit(rest[0]) && rest[0] != '.')
    ensures ParseNumber(EncodeNum(Int(i)) + rest) == Some((Int(i), rest))
  {
    var whole := NatDigits(Abs(i));
    Assoc(SignPrefix(i < 0), whole, rest);
    ScanWholeRoundTrip(whole, rest);
    ParseSigned(i < 0, whole + rest);
  }

  lemma ParseDecimalRoundTrip(negative: bool, w: nat, f: nat, p: nat, rest: string)
    requires ValidNum(Decimal(negative, w, f, p))
    requires rest == [] || (!IsDigit(rest[0]) && rest[0] != '.')
    ensures ParseNumber(EncodeNum(Decimal(negative, w, f, p)) + rest) == Some((Decimal(negative, w, f, p), rest))
  {
    var sign, whole, fraction := SignPrefix(negative), NatDigits(w), PaddedDigits(f, p);
    Assoc(sign + whole + ".", fraction, rest);
    Assoc(sign + whole, ".", fraction + rest);
    Assoc(sign, whole, "." + (fraction + rest));
    Assoc(whole, ".", fraction + rest);
    Assoc(whole + ".", fraction, rest);
    ScanDecimalRoundTrip(whole, fraction, rest);
    ParseSigned(negative, whole + "." + fraction + rest);
  }

  lemma ParseSigned(negative: bool, u: string)
    requires u != [] && IsDigit(u[0])
    ensures ParseNumber(SignPrefix(negative) + u) ==
      match ScanUnsigned(u)
      case None => None
      case Some((whole, None, rest)) => Some((Int(Signed(negative, DigitsValue(whole))), rest))
      case Some((whole, Some(fraction), rest)) =>
        Some((Decimal(negative, DigitsValue(whole), DigitsValue(fraction), |fraction|), rest))
  {
    var s := SignPrefix(negative) + u;
    assert (s != [] && s[0] == '-') == negative;
    assert (if negative then s[1..] else s) == u;
  }

  lemma ParseKeyRoundTrip(key: string, after: string)
    requires ValidKey(key)
    ensures ParseKey("\"" + (key + ("\"" + after))) == Some((key, after))
  {
    DropFirst('"', key + ("\"" + after));
    KeyStopsAt(key, "\"" + after);
    DropFirst('"', after);
  }

  lemma MemberText(m: (string, Num), rest: string)
    requires ValidNum(m.1)
    ensures EncodeMember(m) + rest == "\"" + (m.0 + ("\"" + (":" + (" " + (EncodeNum(m.1) + rest)))))
  {
    var num := EncodeNum(m.1);
    Assoc("\"" + m.0 + "\": ", num, rest);
    Assoc("\"" + m.0, "\": ", num + rest);
    Assoc("\"", m.0, "\": " + (num + rest));
    assert "\": " + (num + rest) == "\"" + (":" + (" " + (num + rest)));
  }

  lemma ParseMemberRoundTrip(m: (string, Num), rest: string)
    requires ValidKey(m.0) && ValidNum(m.1)
    requires rest == [] || (!IsDigit(rest[0]) && rest[0] != '.')
    ensures ParseMember(EncodeMember(m) + rest) == Some(((m.0, Number(m.1)), rest))
  {
    var num := EncodeNum(m.1) + rest;
    var afterKey := ":" + (" " + num);
    MemberText(m, rest);
    ParseKeyRoundTrip(m.0, afterKey);
    SkipWsGap([], afterKey);
    DropFirst(':', " " + num);
    SkipWsGap(" ", num);
    ParseNumberRoundTrip(m.1, rest);
  }

  lemma {:induction false} ParseMembersRoundTrip(ms: seq<(string, Num)>, rest: string)
    requires ms != [] && ValidMembers(ms)
    requires rest != [] && rest[0] == '}'
    ensures ParseMembers(EncodeMembers(ms) + rest) == Some((NumberMembers(ms), rest))
  {
    var member := (ms[0].0, Number(ms[0].1));
    assert NumberMembers(ms) == [member] + NumberMembers(ms[1..]);
    if |ms| == 1 {
      assert EncodeMembers(ms) == EncodeMember(ms[0]);
      assert NumberMembers(ms[1..]) == [];
      assert NumberMembers(ms) == [member];
      ParseMemberRoundTrip(ms[0], rest);
      ParseMembersLast(EncodeMembers(ms) + rest, member, rest);
    } else {
      var tail := EncodeMembers(ms[1..]) + rest;
      var after := "," + (" " + tail);
      MembersText(ms, rest);
      ParseMemberRoundTrip(ms[0], after);
      SkipWsGap([], after);
      DropFirst(',', " " + tail);
      SkipWsGap(" ", tail);
      ParseMembersRoundTrip(ms[1..], rest);
      ParseMembersCons(EncodeMembers(ms) + rest, member, after, NumberMembers(ms[1..]), rest);
    }
  }

  lemma MembersText(ms: seq<(string, Num)>, rest: string)
    requires |ms| >= 2 && ValidMembers(ms)
    ensures EncodeMembers(ms) + rest == EncodeMember(ms[0]) + ("," + (" " + (EncodeMembers(ms[1..]) + rest)))
  {
    var head, tail := EncodeMember(ms[0]), EncodeMembers(ms[1..]);
    Assoc(head + ", ", tail, rest);
    Assoc(head, ", ", tail + rest);
    SplitPair(',', ' ', tail + rest);
  }

  lemma SplitPair(c: char, d: char, x: string)
    ensures [c, d] + x == [c] + ([d] + x)
  {
  }

  lemma ParseMembersCons(s: string, member: (string, Value), after: string, more: seq<(string, Value)>, rest: string)
    requires ParseMember(s) == Some((member, after))
    requires SkipWs(after) != [] && SkipWs(after)[0] == ','
    requires ParseMembers(SkipWs(SkipWs(after)[1..])) == Some((more, rest))
    ensures ParseMembers(s) == Some(([member] + more, rest))
  {
  }

  lemma ParseMembersLast(s: string, member: (string, Value), after: string)
    requires ParseMember(s) == Some((member, after))
    requires after != [] && after[0] == '}'
    ensures ParseMembers(s) == Some(([member], after))
  {
    SkipWsGap([], after);
  }

  /** Decoding the text of an object of numbers gives that object back. */
  lemma DecodeRoundTrip(ms: seq<(string, Num)>)
    requires ValidMembers(ms)
    ensures Decode(Encode(ms)) == Some(Object(NumberMembers(ms)))
  {
    var body := EncodeMembers(ms) + "}";
    Assoc("{", EncodeMembers(ms), "}");
    DropFirst('{', body);
    SkipWsGap([], Encode(ms));
    SkipWsGap([], body);
    if ms != [] {
      ParseMembersRoundTrip(ms, "}");
    } else {
      assert body == "}";
    }
  }

  /** A member whose value is itself an object is refused: the subset has
      numbers only, and `json.loads` would in any case fail on an object cut
      short at its inner closing brace. */
  lemma NestedValueRejected(key: string, gap: string, tail: string)
    requires ValidKey(key)
    requires forall i :: 0 <= i < |gap| ==> IsWs(gap[i])
    ensures Decode("{" + ("\"" + (key + ("\"" + (":" + (gap + ("{" + tail))))))) == None
  {
    var member := "\"" + (key + ("\"" + (":" + (gap + ("{" + tail)))));
    DropFirst('{', member);
    SkipWsGap([], "{" + member);
    SkipWsGap([], member);
    NestedMemberRefused(key, gap, tail);
  }

  /** The text of one member whose value opens an object is not a member. */
  lemma NestedMemberRefused(key: string, gap: string, tail: string)
    requires ValidKey(key)
    requires forall i :: 0 <= i < |gap| ==> IsWs(gap[i])
    ensures ParseMember("\"" + (key + ("\"" + (":" + (gap + ("{" + tail)))))) == None
    ensures ParseMembers("\"" + (key + ("\"" + (":" + (gap + ("{" + tail)))))) == None
  {
    var afterKey := ":" + (gap + ("{" + tail));
    ParseKeyRoundTrip(key, afterKey);
    SkipWsGap([], afterKey);
    DropFirst(':', gap + ("{" + tail));
    SkipWsGap(gap, "{" + tail);
  }

  /** A member list is refused when a member after the first ones fails. */
  lemma ParseMembersConsNone(s: string, member: (string, Value), after: string)
    requires ParseMember(s) == Some((member, after))
    requires SkipWs(after) != [] && SkipWs(after)[0] == ','
    requires ParseMembers(SkipWs(SkipWs(after)[1..])) == None
    ensures ParseMembers(s) == None
  {
  }

  /** Encoded members followed by a member that is refused are refused as a
      whole: the failure of any later member fails the list. */
  lemma {:induction false} RefusedAfterMembers(ms: seq<(string, Num)>, bad: string)
    requires ms != [] && ValidMembers(ms)
    requires bad != [] && bad[0] == '"'
    requires ParseMembers(bad) == None
    ensures ParseMembers(EncodeMembers(ms) + (", " + bad)) == None
  {
    var rest := ", " + bad;
    var member := (ms[0].0, Number(ms[0].1));
    if |ms| == 1 {
      assert EncodeMembers(ms) == EncodeMember(ms[0]);
      RefusedAfterMember(ms[0], bad);
    } else {
      var tail := EncodeMembers(ms[1..]) + rest;
      var after := "," + (" " + tail);
      MembersText(ms, rest);
      ParseMemberRoundTrip(ms[0], after);
      SkipWsGap([], after);
      DropFirst(',', " " + tail);
      SkipWsGap(" ", tail);
      RefusedAfterMembers(ms[1..], bad);
      ParseMembersConsNone(EncodeMembers(ms) + rest, member, after);
    }
  }

  /** One encoded number member followed by a refused member is refused. */
  lemma RefusedAfterMember(m: (string, Num), bad: string)
    requires ValidKey(m.0) && ValidNum(m.1)
    requires bad != [] && bad[0] == '"'
    requires ParseMembers(bad) == None
    ensures ParseMembers(EncodeMember(m) + (", " + bad)) == None
  {
    var rest := ", " + bad;
    SplitPair(',', ' ', bad);
    ParseMemberRoundTrip(m, rest);
    SkipWsGap([], rest);
    DropFirst(',', " " + bad);
    SkipWsGap(" ", bad);
    ParseMembersConsNone(EncodeMember(m) + rest, (m.0, Number(m.1)), rest);
  }

  /** An object whose later member's value is itself an object is refused,
      whatever number members come before it: `{"a": 1, "b": {` is not an
      object of numbers. */
  lemma NestedLaterValueRejected(ms: seq<(string, Num)>, key: string, gap: string, tail: string)
    requires ms != [] && ValidMembers(ms)
    requires ValidKey(key)
    requires forall i :: 0 <= i < |gap| ==> IsWs(gap[i])
    ensures Decode("{" + (EncodeMembers(ms) + (", " + ("\"" + (key + ("\"" + (":" + (gap + ("{" + tail))))))))) == None
  {
    var bad := "\"" + (key + ("\"" + (":" + (gap + ("{" + tail)))));
    NestedMemberRefused(key, gap, tail);
    RefusedAfterMembers(ms, bad);
    MembersRefusedObject(EncodeMembers(ms) + (", " + bad));
  }

  /** Text that starts a member list the parser refuses is not an object. */
  lemma MembersRefusedObject(body: string)
    requires body != [] && body[0] == '"'
    requires ParseMembers(body) == None
    ensures Decode("{" + body) == None
  {
    DropFirst('{', body);
    SkipWsGap([], "{" + body);
    SkipWsGap([], body);
  }

  /** No character outside the keys and the punctuation and digits of the
      encoding appears in an encoded object's members. */
  lemma {:induction false} EncodeMembersAvoids(ms: seq<(string, Num)>, c: char)
    requires ValidMembers(ms)
    requires forall i :: 0 <= i < |ms| ==> c !in ms[i].0
    requires !IsNumChar(c) && c != '"' && c != ':' && c != ',' && c != ' '
    ensures c !in EncodeMembers(ms)
  {
    if ms != [] {
      var m := ms[0];
      assert c !in EncodeNum(m.1) by {
        var e := EncodeNum(m.1);
        forall k | 0 <= k < |e| ensures e[k] != c {
          assert IsNumChar(e[k]);
        }
      }
      assert c !in EncodeMember(m);
      if |ms| > 1 {
        EncodeMembersAvoids(ms[1..], c);
      }
    }
  }
}
