/** The state annotation that a reply carries after the `#STATE` marker, as
    `parse_emotion_state` extracts it (main.py): the segment after the first
    marker, stripped, searched for the pattern `\{[^}]+\}`, and the match
    decoded as JSON. Nothing in it raises: every failure is `None`. */
module Annotation {
  import opened Wrappers
  import Json

  const Marker: string := "#STATE"

  // ---------------------------------------------------------------------
  // Substrings and the marker

  predicate OccursAt(s: string, pat: string, i: nat) {
    i + |pat| <= |s| && s[i..i + |pat|] == pat
  }

  /** Python's `pat in s`. */
  ghost predicate Contains(s: string, pat: string) {
    exists i: nat :: OccursAt(s, pat, i)
  }

  /** The first occurrence of `pat` in `s` at or after `from`, as `str.find`
      reports it. */
  function IndexOf(s: string, pat: string, from: nat): (r: Option<nat>)
    decreases |s| - from
    ensures r.Some? ==> from <= r.value && OccursAt(s, pat, r.value)
    ensures r.Some? ==> forall k: nat :: from <= k < r.value ==> !OccursAt(s, pat, k)
    ensures r.None? ==> forall k: nat :: from <= k ==> !OccursAt(s, pat, k)
  {
    if |s| < from + |pat| then None
    else if OccursAt(s, pat, from) then Some(from)
    else IndexOf(s, pat, from + 1)
  }

  /** `message.split('#STATE')[1]`: the text from the end of the first
      marker up to the next marker or the end of the message, or `None`
      when the message holds no marker. */
  function MarkerSegment(message: string): (r: Option<string>)
    ensures r.None? <==> !Contains(message, Marker)
  {
    match IndexOf(message, Marker, 0)
    case None => None
    case Some(i) =>
      var start := i + |Marker|;
      match IndexOf(message, Marker, start)
      case None => Some(message[start..])
      case Some(j) => Some(message[start..j])
  }

  // ---------------------------------------------------------------------
  // Python's str.strip()

  /** Python's `str.isspace` for one character. */
  predicate IsSpace(c: char) {
    var n := c as int;
    (0x09 <= n <= 0x0D) || (0x1C <= n <= 0x20) || n == 0x85 || n == 0xA0 || n == 0x1680
    || (0x2000 <= n <= 0x200A) || n == 0x2028 || n == 0x2029 || n == 0x202F
    || n == 0x205F || n == 0x3000
  }

  function StripLeading(s: string): (r: string)
    ensures |r| <= |s| && r == s[|s| - |r|..]
    ensures forall k :: 0 <= k < |s| - |r| ==> IsSpace(s[k])
    ensures r != [] ==> !IsSpace(r[0])
  {
    if s != [] && IsSpace(s[0]) then StripLeading(s[1..]) else s
  }

  function StripTrailing(s: string): (r: string)
    ensures |r| <= |s| && r == s[..|r|]
    ensures forall k :: |r| <= k < |s| ==> IsSpace(s[k])
    ensures r != [] ==> !IsSpace(r[|r| - 1])
  {
    if s != [] && IsSpace(s[|s| - 1]) then StripTrailing(s[..|s| - 1]) else s
  }

  /** Python's `str.strip()`: no whitespace is left at either end. */
  function Strip(s: string): (r: string)
    ensures |r| <= |s|
    ensures r != [] ==> !IsSpace(r[0]) && !IsSpace(r[|r| - 1])
  {
    StripTrailing(StripLeading(s))
  }

  // ---------------------------------------------------------------------
  // re.search(r'\{[^}]+\}', text)

  /** A match of `\{[^}]+\}` spanning `s[i..j+1]`: a `{` at `i`, a `}` at
      `j` at least two places later, and no `}` between them. */
  predicate IsFragment(s: string, i: int, j: int) {
    0 <= i && i + 2 <= j < |s| && s[i] == '{' && s[j] == '}'
    && forall k :: i < k < j ==> s[k] != '}'
  }

  /** The first `}` at or after `from`. */
  function NextClose(s: string, from: nat): (r: Option<nat>)
    decreases |s| - from
    ensures r.Some? ==> from <= r.value < |s| && s[r.value] == '}'
    ensures r.Some? ==> forall k :: from <= k < r.value ==> s[k] != '}'
    ensures r.None? ==> forall k :: from <= k < |s| ==> s[k] != '}'
  {
    if from >= |s| then None
    else if s[from] == '}' then Some(from)
    else NextClose(s, from + 1)
  }

  /** Where a match starting at `i` ends, if one does: the greedy `[^}]+`
      runs up to the first `}` after the `{`, and must have taken at least
      one character. */
  function MatchEnd(s: string, i: nat): (r: Option<nat>)
    ensures r.Some? ==> IsFragment(s, i, r.value)
    ensures r.None? ==> forall j :: !IsFragment(s, i, j)
  {
    if i < |s| && s[i] == '{' then
      match NextClose(s, i + 1)
      case Some(j) => if i + 2 <= j then Some(j) else None
      case None => None
    else None
  }

  /** The scan of `re.search`: the leftmost start at or after `from` where
      the pattern matches, with the end of that match. */
  function SearchFrom(s: string, from: nat): (r: Option<(nat, nat)>)
    decreases |s| - from
    ensures r.Some? ==> from <= r.value.0 && IsFragment(s, r.value.0, r.value.1)
    ensures r.Some? ==> forall i, j :: from <= i < r.value.0 ==> !IsFragment(s, i, j)
    ensures r.None? ==> forall i, j :: from <= i ==> !IsFragment(s, i, j)
  {
    if from >= |s| then None
    else
      match MatchEnd(s, from)
      case Some(j) => Some((from, j))
      case None => SearchFrom(s, from + 1)
  }

  /** `json_match.group()`: the text of the leftmost match, if any. */
  function FindFragment(s: string): (r: Option<string>)
    ensures r.Some? ==> IsFragment(r.value, 0, |r.value| - 1)
    ensures r.None? <==> forall i, j :: !IsFragment(s, i, j)
  {
    match SearchFrom(s, 0)
    case None => None
    case Some((i, j)) =>
      var f := s[i..j + 1];
      assert forall k :: 0 < k < |f| - 1 ==> f[k] == s[i + k];
      Some(f)
  }

  // ---------------------------------------------------------------------
  // parse_emotion_state

  /** The text `json.loads` is given: the leftmost brace fragment of the
      stripped segment after the first marker. */
  function StateFragment(message: string): (r: Option<string>)
    ensures !Contains(message, Marker) ==> r.None?
    ensures r.Some? ==> IsFragment(r.value, 0, |r.value| - 1)
    ensures MarkerSegment(message).Some? ==> r == FindFragment(MarkerSegment(message).value)
  {
    match MarkerSegment(message)
    case None => None
    case Some(segment) =>
      StripKeepsFragment(segment);
      FindFragment(Strip(segment))
  }

  /** `parse_emotion_state(message)`, with `json.loads` as the parameter
      `decode` (`None` where it raises). It never fails: a message without
      the marker, a segment without a fragment, and a fragment that does not
      decode all give `None`. */
  function ParseEmotionState(message: string, decode: string -> Option<Json.Value>): (r: Option<Json.Value>)
    ensures !Contains(message, Marker) ==> r.None?
    ensures r.Some? ==> StateFragment(message).Some? && decode(StateFragment(message).value) == r
    ensures StateFragment(message).Some? ==> r == decode(StateFragment(message).value)
    ensures StateFragment(message).None? ==> r.None?
  {
    match StateFragment(message)
    case None => None
    case Some(fragment) => decode(fragment)
  }

  // ---------------------------------------------------------------------
  // Where the marker is found

  /** A text without `#` holds no marker. */
  lemma NoHashNoMarker(s: string)
    requires forall k :: 0 <= k < |s| ==> s[k] != '#'
    ensures !Contains(s, Marker)
  {
    forall i: nat
      ensures !OccursAt(s, Marker, i)
    {
      if i + |Marker| <= |s| {
        assert s[i..i + |Marker|][0] == s[i];
      }
    }
  }

  lemma SliceOfSlice(s: string, lo: nat, hi: nat, k: nat, m: nat)
    requires lo <= hi <= |s| && lo <= k && k + m <= hi
    ensures s[lo..hi][k - lo..k - lo + m] == s[k..k + m]
  {
    var a := s[lo..hi][k - lo..k - lo + m];
    var b := s[k..k + m];
    forall t | 0 <= t < m
      ensures a[t] == b[t]
    {
    }
  }

  /** An occurrence of the marker inside `s[from..j]` is one inside `s`. */
  lemma OccursInSlice(s: string, from: nat, j: nat, k: nat)
    requires from <= j <= |s| && from <= k && k + |Marker| <= j
    ensures OccursAt(s[from..j], Marker, k - from) == OccursAt(s, Marker, k)
  {
    SliceOfSlice(s, from, j, k, |Marker|);
  }

  /** `str.find` lands on the occurrence at `j` when the text from `from`
      up to `j` holds no marker. The marker has a single `#`, so no earlier
      occurrence can overlap the one at `j`. */
  lemma NextMarkerAt(s: string, from: nat, j: nat)
    requires from <= j && OccursAt(s, Marker, j)
    requires !Contains(s[from..j], Marker)
    ensures IndexOf(s, Marker, from) == Some(j)
  {
    forall k: nat | from <= k < j
      ensures !OccursAt(s, Marker, k)
    {
      if k + |Marker| <= j {
        OccursInSlice(s, from, j, k);
        assert !OccursAt(s[from..j], Marker, k - from);
      } else if k + |Marker| <= |s| {
        assert s[j..j + |Marker|][0] == '#';
        assert s[k..k + |Marker|][j - k] == s[j];
        assert Marker[j - k] != '#';
      }
    }
  }

  lemma SliceParts(a: string, b: string, c: string)
    ensures (a + b + c)[..|a|] == a
    ensures (a + b + c)[|a|..|a| + |b|] == b
    ensures (a + b + c)[|a| + |b|..] == c
  {
  }

  /** A message holding exactly one marker: the annotation segment is all
      the text after it. */
  lemma SegmentAfterOnlyMarker(a: string, b: string)
    requires !Contains(a, Marker) && !Contains(b, Marker)
    ensures MarkerSegment(a + Marker + b) == Some(b)
  {
    var s := a + Marker + b;
    SliceParts(a, Marker, b);
    assert s[0..|a|] == a;
    NextMarkerAt(s, 0, |a|);
    var start := |a| + |Marker|;
    forall k: nat | start <= k
      ensures !OccursAt(s, Marker, k)
    {
      if k + |Marker| <= |s| {
        OccursInSlice(s, start, |s|, k);
        assert s[start..|s|] == b;
      }
    }
  }

  /** A message holding a second marker: the annotation segment stops at
      it, so anything after the second marker is ignored. */
  lemma SegmentBetweenMarkers(a: string, b: string, c: string)
    requires !Contains(a, Marker) && !Contains(b, Marker)
    ensures MarkerSegment(a + Marker + b + Marker + c) == Some(b)
  {
    var s := a + Marker + b + Marker + c;
    SliceParts(a, Marker, b + Marker + c);
    assert s == a + Marker + (b + Marker + c);
    assert s[0..|a|] == a;
    NextMarkerAt(s, 0, |a|);
    var start := |a| + |Marker|;
    SliceParts(a + Marker + b, Marker, c);
    assert start + |b| == |a + Marker + b|;
    assert s[start..start + |b|] == b by {
      SliceParts(a + Marker, b, Marker + c);
      assert s == a + Marker + b + (Marker + c);
    }
    NextMarkerAt(s, start, start + |b|);
  }

  /** Whatever follows a second marker has no effect on the parsed state. */
  lemma TextAfterSecondMarkerIgnored(a: string, b: string, c1: string, c2: string,
                                     decode: string -> Option<Json.Value>)
    requires !Contains(a, Marker) && !Contains(b, Marker)
    ensures ParseEmotionState(a + Marker + b + Marker + c1, decode)
         == ParseEmotionState(a + Marker + b + Marker + c2, decode)
  {
    SegmentBetweenMarkers(a, b, c1);
    SegmentBetweenMarkers(a, b, c2);
  }

  // ---------------------------------------------------------------------
  // Which fragment the search returns

  /** A start has only one match: it ends at the first `}`. */
  lemma FragmentEndUnique(s: string, i: int, j1: int, j2: int)
    requires IsFragment(s, i, j1) && IsFragment(s, i, j2)
    ensures j1 == j2
  {
  }

  /** The search returns exactly the leftmost match. */
  lemma FindFragmentLeftmost(s: string, i: int, j: int)
    requires IsFragment(s, i, j)
    requires forall i', j' :: 0 <= i' < i ==> !IsFragment(s, i', j')
    ensures FindFragment(s) == Some(s[i..j + 1])
  {
    var r := SearchFrom(s, 0);
    assert r.Some?;
    FragmentEndUnique(s, i, r.value.1, j);
  }

  /** Text that starts with a complete match yields that match, whatever
      follows it. */
  lemma FragmentAtStart(f: string, z: string)
    requires IsFragment(f, 0, |f| - 1)
    ensures FindFragment(f + z) == Some(f)
  {
    var s := f + z;
    assert forall k :: 0 <= k < |f| ==> s[k] == f[k];
    assert IsFragment(s, 0, |f| - 1);
    FindFragmentLeftmost(s, 0, |f| - 1);
    assert s[0..|f|] == f;
  }

  /** A nested object is cut at its first `}`: the search returns the
      outer `{` up to the inner object's closing brace. */
  lemma NestedObjectTruncated(x: string, y: string, z: string)
    requires forall k :: 0 <= k < |x| ==> x[k] != '}'
    requires forall k :: 0 <= k < |y| ==> y[k] != '}'
    ensures FindFragment("{" + (x + ("{" + (y + "}"))) + z) == Some("{" + (x + ("{" + (y + "}"))))
  {
    var f := "{" + (x + ("{" + (y + "}")));
    forall k | 0 < k < |f| - 1
      ensures f[k] != '}'
    {
      if k <= |x| {
        assert f[k] == x[k - 1];
      } else if k > |x| + 1 {
        assert f[k] == y[k - |x| - 2];
      }
    }
    assert IsFragment(f, 0, |f| - 1);
    FragmentAtStart(f, z);
  }

  /** `Strip(s)` is the slice of `s` from `lo`, with whitespace before
      and after it. */
  predicate StrippedAt(s: string, t: string, lo: nat) {
    lo + |t| <= |s| && t == s[lo..lo + |t|]
    && (forall k :: 0 <= k < lo ==> IsSpace(s[k]))
    && (forall k :: lo + |t| <= k < |s| ==> IsSpace(s[k]))
  }

  lemma StripSlice(s: string) returns (lo: nat)
    ensures StrippedAt(s, Strip(s), lo)
  {
    var u := StripLeading(s);
    var t := Strip(s);
    lo := |s| - |u|;
    assert t == u[..|t|];
    assert t == s[lo..lo + |t|];
    forall k | lo + |t| <= k < |s|
      ensures IsSpace(s[k])
    {
      assert s[k] == u[k - lo];
    }
  }

  /** Every match of the stripped text is a match of the original,
      shifted by `lo`. */
  lemma StrippedFragments(s: string, t: string, lo: nat)
    requires StrippedAt(s, t, lo)
    ensures forall i, j :: IsFragment(t, i, j) ==> IsFragment(s, i + lo, j + lo)
  {
    assert forall k :: 0 <= k < |t| ==> t[k] == s[lo + k];
  }

  /** Every match of the original lies inside the stripped text, because
      its ends are not whitespace. */
  lemma FragmentInStripped(s: string, t: string, lo: nat, i: int, j: int)
    requires StrippedAt(s, t, lo)
    requires IsFragment(s, i, j)
    ensures lo <= i && IsFragment(t, i - lo, j - lo)
  {
    assert !IsSpace(s[i]) && !IsSpace(s[j]);
    assert forall k :: 0 <= k < |t| ==> t[k] == s[lo + k];
  }

  /** The leftmost match of the original is the leftmost of the stripped
      text. */
  lemma StrippedLeftmost(s: string, t: string, lo: nat, i: nat, j: nat)
    requires StrippedAt(s, t, lo)
    requires IsFragment(s, i, j)
    requires forall i', j' :: 0 <= i' < i ==> !IsFragment(s, i', j')
    ensures FindFragment(t) == Some(s[i..j + 1])
  {
    StrippedFragments(s, t, lo);
    FragmentInStripped(s, t, lo, i, j);
    FindFragmentLeftmost(t, i - lo, j - lo);
    SliceOfSlice(s, lo, lo + |t|, i, j - i + 1);
  }

  /** Stripping whitespace never changes the match: a match has no
      whitespace at its ends, so it lies inside the stripped text. */
  lemma StripKeepsFragment(s: string)
    ensures FindFragment(Strip(s)) == FindFragment(s)
  {
    var t := Strip(s);
    var lo := StripSlice(s);
    var r := SearchFrom(s, 0);
    if r.Some? {
      StrippedLeftmost(s, t, lo, r.value.0, r.value.1);
    } else {
      StrippedFragments(s, t, lo);
    }
  }

  // ---------------------------------------------------------------------
  // End to end, with the JSON subset as the decoder

  /** The text of a non-empty object of numbers whose keys hold neither `}`
      nor `#` is one whole match of the brace pattern and holds no marker. */
  lemma EncodedObjectIsFragment(ms: seq<(string, Json.Num)>)
    requires ms != [] && Json.ValidMembers(ms)
    requires forall i :: 0 <= i < |ms| ==> '}' !in ms[i].0 && '#' !in ms[i].0
    ensures IsFragment(Json.Encode(ms), 0, |Json.Encode(ms)| - 1)
    ensures forall k :: 0 <= k < |Json.Encode(ms)| ==> Json.Encode(ms)[k] != '#'
  {
    var body := Json.EncodeMembers(ms);
    var e := Json.Encode(ms);
    Json.EncodeMembersAvoids(ms, '}');
    Json.EncodeMembersAvoids(ms, '#');
    assert e == "{" + body + "}";
    forall k | 0 < k < |e| - 1
      ensures e[k] == body[k - 1]
    {
    }
  }

  /** Stripping a text with no whitespace at its ends after one leading
      space leaves the text. */
  lemma StripLeadingSpace(e: string)
    requires e != [] && !IsSpace(e[0]) && !IsSpace(e[|e| - 1])
    ensures Strip(" " + e) == e
  {
    assert (" " + e)[1..] == e;
  }

  /** The segment of a reply that ends with its only marker, a space and a
      text without `#`. */
  lemma SpacedSegment(prefix: string, e: string)
    requires !Contains(prefix, Marker)
    requires forall k :: 0 <= k < |e| ==> e[k] != '#'
    ensures MarkerSegment(prefix + Marker + " " + e) == Some(" " + e)
  {
    assert forall k :: 0 <= k < |" " + e| ==> (" " + e)[k] != '#';
    NoHashNoMarker(" " + e);
    assert prefix + Marker + " " + e == prefix + Marker + (" " + e);
    SegmentAfterOnlyMarker(prefix, " " + e);
  }

  /** The parsed state, given the segment and what the search finds in it. */
  lemma ParseThrough(message: string, segment: string, found: Option<string>,
                     decode: string -> Option<Json.Value>)
    requires MarkerSegment(message) == Some(segment)
    requires FindFragment(Strip(segment)) == found
    ensures ParseEmotionState(message, decode) == if found.Some? then decode(found.value) else None
  {
  }

  /** A reply that ends with its only marker, a space and one whole match
      without `#`: that match is what the decoder is given. */
  lemma FragmentAfterMarker(prefix: string, e: string, decode: string -> Option<Json.Value>)
    requires !Contains(prefix, Marker)
    requires IsFragment(e, 0, |e| - 1)
    requires forall k :: 0 <= k < |e| ==> e[k] != '#'
    ensures ParseEmotionState(prefix + Marker + " " + e, decode) == decode(e)
  {
    SpacedSegment(prefix, e);
    StripLeadingSpace(e);
    FragmentAtStart(e, []);
    assert e + [] == e;
    ParseThrough(prefix + Marker + " " + e, " " + e, Some(e), decode);
  }

  /** A reply that ends with the marker, a space and the text of an object
      of numbers yields that object. */
  lemma AnnotationRoundTrip(prefix: string, ms: seq<(string, Json.Num)>)
    requires !Contains(prefix, Marker)
    requires ms != [] && Json.ValidMembers(ms)
    requires forall i :: 0 <= i < |ms| ==> '}' !in ms[i].0 && '#' !in ms[i].0
    ensures ParseEmotionState(prefix + Marker + " " + Json.Encode(ms), Json.Decode)
         == Some(Json.Object(Json.NumberMembers(ms)))
  {
    EncodedObjectIsFragment(ms);
    FragmentAfterMarker(prefix, Json.Encode(ms), Json.Decode);
    Json.DecodeRoundTrip(ms);
  }

  /** Text that is too short to hold a match. */
  lemma ShortTextNoFragment(s: string)
    requires |s| < 3
    ensures FindFragment(s) == None
  {
  }

  /** An empty object written `{}` is not found: the pattern needs a
      character between the braces. */
  lemma EmptyBracesNotFound(prefix: string, decode: string -> Option<Json.Value>)
    requires !Contains(prefix, Marker)
    ensures ParseEmotionState(prefix + Marker + " {}", decode) == None
  {
    var e := "{}";
    SpacedSegment(prefix, e);
    StripLeadingSpace(e);
    ShortTextNoFragment(e);
    ParseThrough(prefix + Marker + " " + e, " " + e, None, decode);
    Json.Assoc(prefix + Marker, " ", e);
    assert " " + e == " {}";
  }

  lemma ExampleNumText()
    ensures Json.EncodeNum(Json.Decimal(false, 1, 5, 1)) == "1.5"
  {
    assert Json.NatDigits(1) == "1";
    assert Json.PaddedDigits(5, 1) == "5";
  }

  /** The text of the object `{"v": 1.5}`. */
  lemma EncodeExample()
    ensures Json.Encode([("v", Json.Decimal(false, 1, 5, 1))]) == "{\"v\": 1.5}"
  {
    var ms := [("v", Json.Decimal(false, 1, 5, 1))];
    ExampleNumText();
    assert Json.EncodeMembers(ms) == Json.EncodeMember(ms[0]);
    assert Json.EncodeMember(ms[0]) == "\"v\": 1.5";
  }

  /** A reply ending in `#STATE {"v": 1.5}` yields the object with that
      one number. */
  lemma ExampleDecimal(reply: string)
    requires !Contains(reply, Marker)
    ensures ParseEmotionState(reply + "#STATE {\"v\": 1.5}", Json.Decode)
         == Some(Json.Object([("v", Json.Number(Json.Decimal(false, 1, 5, 1)))]))
  {
    var ms := [("v", Json.Decimal(false, 1, 5, 1))];
    var e := "{\"v\": 1.5}";
    AnnotationRoundTrip(reply, ms);
    EncodeExample();
    Json.Assoc(reply, Marker, " ");
    Json.Assoc(reply, Marker + " ", e);
    ExampleText();
    assert reply + Marker + " " + Json.Encode(ms) == reply + "#STATE {\"v\": 1.5}";
    assert Json.NumberMembers(ms) == [("v", Json.Number(Json.Decimal(false, 1, 5, 1)))];
  }

  lemma ExampleText()
    ensures Marker + " " + "{\"v\": 1.5}" == "#STATE {\"v\": 1.5}"
  {
  }

  lemma KeyText(key: string, w: string)
    ensures ("\"" + (key + ("\"" + (":" + " ")))) + w
         == "\"" + (key + ("\"" + (":" + (" " + w))))
  {
  }

  /** A reply that ends with its only marker, a space and a text without
      `#` whose ends are braces: the decoder is given what the search
      finds in that text. */
  lemma FoundAfterMarker(prefix: string, e: string, found: Option<string>,
                         decode: string -> Option<Json.Value>)
    requires !Contains(prefix, Marker)
    requires forall k :: 0 <= k < |e| ==> e[k] != '#'
    requires e != [] && e[0] == '{' && e[|e| - 1] == '}'
    requires FindFragment(e) == found
    ensures ParseEmotionState(prefix + Marker + " " + e, decode)
         == if found.Some? then decode(found.value) else None
  {
    SpacedSegment(prefix, e);
    StripLeadingSpace(e);
    ParseThrough(prefix + Marker + " " + e, " " + e, found, decode);
  }

  /** A state whose first value is itself an object gives `None`: the
      search stops at the inner closing brace and the decoder refuses the
      fragment. */
  lemma NestedStateRejected(prefix: string, key: string, inner: string)
    requires !Contains(prefix, Marker)
    requires Json.ValidKey(key)
    requires forall k :: 0 <= k < |key| ==> key[k] != '}' && key[k] != '#'
    requires forall k :: 0 <= k < |inner| ==> inner[k] != '}' && inner[k] != '#'
    ensures ParseEmotionState(prefix + Marker + " " + (("{" + (("\"" + (key + ("\"" + (":" + " "))))
                                + ("{" + (inner + "}")))) + "}"), Json.Decode) == None
  {
    var x := "\"" + (key + ("\"" + (":" + " ")));
    var f := "{" + (x + ("{" + (inner + "}")));
    var e := f + "}";
    assert forall k :: 0 <= k < |x| ==> x[k] != '}' && x[k] != '#';
    assert forall k :: 0 <= k < |e| ==> e[k] != '#';
    NestedObjectTruncated(x, inner, "}");
    KeyText(key, "{" + (inner + "}"));
    Json.NestedValueRejected(key, " ", inner + "}");
    FoundAfterMarker(prefix, e, Some(f), Json.Decode);
  }

  /** A reply whose state opens an object inside the outer one, after a
      text `x` without `}` or `#`: when the decoder refuses the fragment cut
      at the inner closing brace, the parsed state is `None`. */
  lemma TruncatedStateRejected(prefix: string, x: string, inner: string)
    requires !Contains(prefix, Marker)
    requires forall k :: 0 <= k < |x| ==> x[k] != '}' && x[k] != '#'
    requires forall k :: 0 <= k < |inner| ==> inner[k] != '}' && inner[k] != '#'
    requires Json.Decode("{" + (x + ("{" + (inner + "}")))) == None
    ensures ParseEmotionState(prefix + Marker + " " + (("{" + (x + ("{" + (inner + "}")))) + "}"), Json.Decode) == None
  {
    var f := "{" + (x + ("{" + (inner + "}")));
    var e := f + "}";
    assert forall k :: 0 <= k < |e| ==> e[k] != '#';
    NestedObjectTruncated(x, inner, "}");
    FoundAfterMarker(prefix, e, Some(f), Json.Decode);
  }

  /** Encoded members, a comma and a key without `}` or `#` hold neither. */
  lemma LaterKeyText(body: string, key: string)
    requires '}' !in body && '#' !in body
    requires forall k :: 0 <= k < |key| ==> key[k] != '}' && key[k] != '#'
    ensures var x := body + (", " + ("\"" + (key + ("\"" + (":" + " ")))));
            forall k :: 0 <= k < |x| ==> x[k] != '}' && x[k] != '#'
  {
    var member := "\"" + (key + ("\"" + (":" + " ")));
    var x := body + (", " + member);
    assert forall k :: 0 <= k < |member| ==> member[k] != '}' && member[k] != '#';
    forall k | 0 <= k < |x|
      ensures x[k] != '}' && x[k] != '#'
    {
      if k < |body| {
        assert x[k] == body[k];
      } else if k >= |body| + 2 {
        assert x[k] == member[k - |body| - 2];
      }
    }
  }

  lemma LaterMemberText(body: string, key: string, t: string)
    ensures "{" + ((body + (", " + ("\"" + (key + ("\"" + (":" + " ")))))) + t)
         == "{" + (body + (", " + ("\"" + (key + ("\"" + (":" + (" " + t)))))))
  {
    var member := "\"" + (key + ("\"" + (":" + " ")));
    Json.Assoc(body, ", " + member, t);
    Json.Assoc(", ", member, t);
    KeyText(key, t);
  }

  /** A state whose value after one or more numbers is itself an object
      gives `None` as well: the fragment ends at the inner closing brace,
      and the decoder refuses the later member. */
  lemma NestedLaterStateRejected(prefix: string, ms: seq<(string, Json.Num)>, key: string, inner: string)
    requires !Contains(prefix, Marker)
    requires ms != [] && Json.ValidMembers(ms)
    requires forall i :: 0 <= i < |ms| ==> '}' !in ms[i].0 && '#' !in ms[i].0
    requires Json.ValidKey(key)
    requires forall k :: 0 <= k < |key| ==> key[k] != '}' && key[k] != '#'
    requires forall k :: 0 <= k < |inner| ==> inner[k] != '}' && inner[k] != '#'
    ensures ParseEmotionState(prefix + Marker + " " + (("{" + ((Json.EncodeMembers(ms) + (", " + ("\"" + (key + ("\"" + (":" + " "))))))
                                + ("{" + (inner + "}")))) + "}"), Json.Decode) == None
  {
    EncodedBeforeNested(ms, key, inner);
    LaterStateRejected(prefix, Json.EncodeMembers(ms), key, inner);
  }

  /** What the state lemma needs of the encoded members before a nested
      member: a leading quote, no `}` or `#`, and a refused member list. */
  lemma EncodedBeforeNested(ms: seq<(string, Json.Num)>, key: string, inner: string)
    requires ms != [] && Json.ValidMembers(ms)
    requires forall i :: 0 <= i < |ms| ==> '}' !in ms[i].0 && '#' !in ms[i].0
    requires Json.ValidKey(key)
    ensures var body := Json.EncodeMembers(ms);
            body != [] && body[0] == '"' && '}' !in body && '#' !in body
            && Json.ParseMembers(body + (", " + ("\"" + (key + ("\"" + (":" + (" " + ("{" + (inner + "}"))))))))) == None
  {
    Json.EncodeMembersAvoids(ms, '}');
    Json.EncodeMembersAvoids(ms, '#');
    var bad := "\"" + (key + ("\"" + (":" + (" " + ("{" + (inner + "}"))))));
    Json.NestedMemberRefused(key, " ", inner + "}");
    Json.RefusedAfterMembers(ms, bad);
  }

  lemma LaterStateRejected(prefix: string, body: string, key: string, inner: string)
    requires !Contains(prefix, Marker)
    requires '}' !in body && '#' !in body
    requires forall k :: 0 <= k < |key| ==> key[k] != '}' && key[k] != '#'
    requires forall k :: 0 <= k < |inner| ==> inner[k] != '}' && inner[k] != '#'
    requires body != [] && body[0] == '"'
    requires Json.ParseMembers(body + (", " + ("\"" + (key + ("\"" + (":" + (" " + ("{" + (inner + "}"))))))))) == None
    ensures ParseEmotionState(prefix + Marker + " " + (("{" + ((body + (", " + ("\"" + (key + ("\"" + (":" + " "))))))
                                + ("{" + (inner + "}")))) + "}"), Json.Decode) == None
  {
    var member := "\"" + (key + ("\"" + (":" + " ")));
    Json.MembersRefusedObject(body + (", " + ("\"" + (key + ("\"" + (":" + (" " + ("{" + (inner + "}")))))))));
    LaterKeyText(body, key);
    LaterMemberText(body, key, "{" + (inner + "}"));
    TruncatedStateRejected(prefix, body + (", " + member), inner);
  }

  lemma DecodeEmptyObject()
    ensures Json.Decode("{ }") == Some(Json.Object([]))
  {
    assert Json.SkipWs("{ }") == "{ }";
    assert "{ }"[1..] == " }";
    assert Json.SkipWs(" }") == "}";
    assert "}"[1..] == [];
  }

  /** A reply ending in `#STATE { }` yields the empty object: the space
      between the braces lets the search match, and the decoder accepts it. */
  lemma EmptyObjectFound(prefix: string)
    requires !Contains(prefix, Marker)
    ensures ParseEmotionState(prefix + Marker + " " + "{ }", Json.Decode) == Some(Json.Object([]))
  {
    var e := "{ }";
    assert IsFragment(e, 0, |e| - 1);
    FragmentAtStart(e, []);
    assert e + [] == e;
    DecodeEmptyObject();
    FoundAfterMarker(prefix, e, Some(e), Json.Decode);
  }
}
