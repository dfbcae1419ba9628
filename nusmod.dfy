/** The module loader's hand-written JSON field scanner (`Nusmod`), from the
    already-fetched response text onward: key lookup, value extraction, the
    credit and prerequisite parsers, and the assembly of a `Module`. */
module Nusmod {
  import opened Options
  import opened JavaInteger
  import opened Modules

  const CODE_KEY: string := "moduleCode"
  const NAME_KEY: string := "title"
  const MC_KEY: string := "moduleCredit"
  const PREREQ_KEY: string := "prereqTree"

  /** The module type every fetched module receives. */
  const FETCHED_TYPE: string := "core"

  // ---------------------------------------------------------------------------
  // java.lang.String searches and java.lang.Character classes

  predicate OccursAt(s: string, pat: string, i: int) {
    0 <= i && i + |pat| <= |s| && s[i..i + |pat|] == pat
  }

  /** `s.indexOf(pat, from)`: the first occurrence at or after `from`, or -1. */
  function IndexOfFrom(s: string, pat: string, from: nat): (r: int)
    decreases |s| - from
    ensures r == -1 || (from <= r && OccursAt(s, pat, r))
    ensures forall j :: from <= j && (r == -1 || j < r) ==> !OccursAt(s, pat, j)
  {
    if from + |pat| > |s| then -1
    else if s[from..from + |pat|] == pat then from
    else IndexOfFrom(s, pat, from + 1)
  }

  /** `s.indexOf(c, from)`: the first `c` at or after `from`, or -1. */
  function IndexOfChar(s: string, c: char, from: nat): (r: int)
    decreases |s| - from
    ensures r == -1 || (from <= r < |s| && s[r] == c)
    ensures forall j :: from <= j < |s| && (r == -1 || j < r) ==> s[j] != c
  {
    if from >= |s| then -1
    else if s[from] == c then from
    else IndexOfChar(s, c, from + 1)
  }

  /** `s.lastIndexOf(c)`: the last `c`, or -1. */
  function LastIndexOfChar(s: string, c: char): (r: int)
    ensures r == -1 || (0 <= r < |s| && s[r] == c)
    ensures forall j :: 0 <= j < |s| && r < j ==> s[j] != c
  {
    if s == [] then -1
    else if s[|s| - 1] == c then |s| - 1
    else LastIndexOfChar(s[..|s| - 1], c)
  }

  /** `Character.isWhitespace`, restricted to ASCII. */
  predicate IsWhitespace(c: char) {
    c == ' ' || 9 <= c as int <= 13 || 28 <= c as int <= 31
  }

  /** `Character.isLetterOrDigit`, restricted to ASCII. */
  predicate IsLetterOrDigit(c: char) {
    'a' <= c <= 'z' || 'A' <= c <= 'Z' || '0' <= c <= '9'
  }

  /** A character of an unquoted value: letter, digit, `.` or `-`. */
  predicate IsTokenChar(c: char) {
    IsLetterOrDigit(c) || c == '.' || c == '-'
  }

  /** The end of the longest run of characters satisfying `p` from `i`. */
  function SkipWhile(s: string, i: nat, p: char -> bool): (r: nat)
    requires i <= |s|
    decreases |s| - i
    ensures i <= r <= |s|
    ensures forall j :: i <= j < r ==> p(s[j])
    ensures r < |s| ==> !p(s[r])
  {
    if i < |s| && p(s[i]) then SkipWhile(s, i + 1, p) else i
  }

  // ---------------------------------------------------------------------------
  // Locating a key and its value

  function Quoted(key: string): string {
    ['"'] + key + ['"']
  }

  /** `findKeyIndex`: where the key, in quotes, first occurs, or -1. */
  function FindKeyIndex(json: string, key: string): (r: int)
    ensures r == -1 <==> forall j :: !OccursAt(json, Quoted(key), j)
    ensures r != -1 ==> OccursAt(json, Quoted(key), r)
    ensures forall j :: j < r ==> !OccursAt(json, Quoted(key), j)
  {
    IndexOfFrom(json, Quoted(key), 0)
  }

  /** Where `findValueStart` stops: the first non-whitespace index after the
      first `:` at or after `keyIndex`. With no such colon the scan starts at
      index 0, since `indexOf` gives -1. */
  function ValueStart(json: string, keyIndex: nat): (r: nat)
    ensures r <= |json|
    ensures IndexOfChar(json, ':', keyIndex) + 1 <= r
    ensures forall j :: IndexOfChar(json, ':', keyIndex) < j < r ==> IsWhitespace(json[j])
    ensures r < |json| ==> !IsWhitespace(json[r])
    ensures (forall j :: keyIndex <= j < |json| ==> json[j] != ':') ==>
              forall j :: 0 <= j < r ==> IsWhitespace(json[j])
  {
    SkipWhile(json, IndexOfChar(json, ':', keyIndex) + 1, IsWhitespace)
  }

  /** `findValueStart`: finds the colon, then steps over whitespace. */
  method FindValueStart(json: string, keyIndex: nat) returns (idx: nat)
    ensures idx == ValueStart(json, keyIndex)
  {
    var colonIdx := IndexOfChar(json, ':', keyIndex);
    idx := colonIdx + 1;
    while idx < |json| && IsWhitespace(json[idx])
      invariant colonIdx + 1 <= idx <= |json|
      invariant SkipWhile(json, idx, IsWhitespace) == ValueStart(json, keyIndex)
    {
      idx := idx + 1;
    }
  }

  // ---------------------------------------------------------------------------
  // Extracting an object value

  /** The number of `c` in `t`. */
  function CountChar(t: string, c: char): nat {
    if t == [] then 0 else CountChar(t[..|t| - 1], c) + (if t[|t| - 1] == c then 1 else 0)
  }

  /** Opening braces minus closing braces. */
  function Depth(t: string): int {
    CountChar(t, '{') - CountChar(t, '}')
  }

  lemma DepthStep(json: string, start: nat, i: nat)
    requires start <= i < |json|
    ensures Depth(json[start..i + 1]) == Depth(json[start..i])
              + (if json[i] == '{' then 1 else if json[i] == '}' then -1 else 0)
  {
    var t := json[start..i + 1];
    assert t[..|t| - 1] == json[start..i];
  }

  /** `e` holds a `}` at which the brace count, taken from `start`, is zero. */
  predicate ClosesAt(json: string, start: nat, e: int) {
    start <= e < |json| && json[e] == '}' && Depth(json[start..e + 1]) == 0
  }

  /** The first index from `i` on where the brace count from `start` closes. */
  function CloseFrom(json: string, start: nat, i: nat): (r: Option<nat>)
    requires start <= i <= |json|
    decreases |json| - i
    ensures r.Some? ==> i <= r.value && ClosesAt(json, start, r.value)
    ensures forall k :: i <= k && (r.None? || k < r.value) ==> !ClosesAt(json, start, k)
  {
    if i == |json| then None
    else if ClosesAt(json, start, i) then Some(i)
    else CloseFrom(json, start, i + 1)
  }

  /** The object value starting at `start`: up to and including the first `}`
      at which the running brace count returns to zero, or null if it never
      does. What it returns has as many `{` as `}`. */
  function JsonObject(json: string, start: nat): (r: Option<string>)
    ensures r.None? <==> forall k :: !ClosesAt(json, start, k)
    ensures r.Some? ==> exists e :: && ClosesAt(json, start, e)
                                    && (forall k :: k < e ==> !ClosesAt(json, start, k))
                                    && r.value == json[start..e + 1]
    ensures r.Some? ==> && r.value != [] && r.value[|r.value| - 1] == '}'
                        && CountChar(r.value, '{') == CountChar(r.value, '}')
  {
    if start > |json| then None
    else match CloseFrom(json, start, start)
      case None => None
      case Some(e) => Some(json[start..e + 1])
  }

  /** `extractJsonObject`: a running brace counter. */
  method ExtractJsonObject(json: string, startIdx: nat) returns (r: Option<string>)
    ensures r == JsonObject(json, startIdx)
  {
    var braceCount := 0;
    var i := startIdx;
    while i < |json|
      invariant startIdx <= i
      invariant i <= |json| || i == startIdx
      invariant i <= |json| ==> braceCount == Depth(json[startIdx..i])
      invariant forall k :: k < i ==> !ClosesAt(json, startIdx, k)
    {
      var c := json[i];
      DepthStep(json, startIdx, i);
      if c == '{' {
        braceCount := braceCount + 1;
      } else if c == '}' {
        braceCount := braceCount - 1;
        if braceCount == 0 {
          assert ClosesAt(json, startIdx, i);
          return Some(json[startIdx..i + 1]);
        }
      }
      i := i + 1;
    }
    return None;
  }

  // ---------------------------------------------------------------------------
  // Extracting a string or an unquoted value

  /** `extractJsonString`: the text after the quote at `startIdx` up to the
      next `"`, with no escapes; with no closing quote, `substring` throws. */
  function JsonString(json: string, startIdx: nat): (r: Outcome<string>)
    ensures r.Ok? ==> && startIdx + 1 + |r.value| < |json|
                      && json[startIdx + 1..startIdx + 1 + |r.value|] == r.value
                      && json[startIdx + 1 + |r.value|] == '"'
                      && '"' !in r.value
    ensures r.Throws? <==> forall j :: startIdx < j < |json| ==> json[j] != '"'
    ensures r.Throws? ==> r.fault == UnclosedString
  {
    var quoteStart := startIdx + 1;
    var quoteEnd := IndexOfChar(json, '"', quoteStart);
    if quoteEnd == -1 then Throws(UnclosedString)
    else Ok(json[quoteStart..quoteEnd])
  }

  /** The unquoted value at `startIdx`: the longest, possibly empty, run of
      letters, digits, `.` and `-`. */
  function RawValue(json: string, startIdx: nat): (r: string)
    requires startIdx <= |json|
    ensures startIdx + |r| <= |json| && json[startIdx..startIdx + |r|] == r
    ensures forall j :: 0 <= j < |r| ==> IsTokenChar(r[j])
    ensures startIdx + |r| < |json| ==> !IsTokenChar(json[startIdx + |r|])
  {
    json[startIdx..SkipWhile(json, startIdx, IsTokenChar)]
  }

  /** `extractRawValue`: advances an end index over token characters. */
  method ExtractRawValue(json: string, startIdx: nat) returns (r: string)
    requires startIdx <= |json|
    ensures r == RawValue(json, startIdx)
  {
    var endIdx := startIdx;
    while endIdx < |json| && IsTokenChar(json[endIdx])
      invariant startIdx <= endIdx <= |json|
      invariant SkipWhile(json, endIdx, IsTokenChar) == SkipWhile(json, startIdx, IsTokenChar)
    {
      endIdx := endIdx + 1;
    }
    r := json[startIdx..endIdx];
  }

  // ---------------------------------------------------------------------------
  // getArg

  /** `getArg`: null when the quoted key is absent; otherwise the value after
      the colon, read as an object, a string or an unquoted token according
      to its first character. `charAt` throws when the value is missing at
      the end of the text. */
  function GetArg(json: string, key: string): (r: Outcome<Option<string>>)
    ensures FindKeyIndex(json, key) == -1 ==> r == Ok(None)
    ensures r == Throws(CharAtEnd) <==>
              FindKeyIndex(json, key) != -1 && ValueStart(json, FindKeyIndex(json, key)) == |json|
    ensures r.Throws? ==> r.fault == CharAtEnd || r.fault == UnclosedString
    ensures r.Ok? && r.value.Some? ==>
              var v := r.value.value;
              || (v != [] && v[0] == '{' && v[|v| - 1] == '}' && Depth(v) == 0)
              || '"' !in v
  {
    var keyIndex := FindKeyIndex(json, key);
    if keyIndex == -1 then Ok(None)
    else
      var valueStart := ValueStart(json, keyIndex);
      if valueStart == |json| then Throws(CharAtEnd)
      else if json[valueStart] == '{' then
        var obj := JsonObject(json, valueStart);
        assert obj.Some? ==> obj.value[0] == '{';
        Ok(obj)
      else if json[valueStart] == '"' then
        var s :- JsonString(json, valueStart);
        Ok(Some(s))
      else
        var v := RawValue(json, valueStart);
        assert forall j :: 0 <= j < |v| ==> v[j] != '"';
        Ok(Some(v))
  }

  /** The first `c` from the start of `run` is the one just after it. */
  lemma FirstCharAfter(s: string, pre: string, run: string, c: char, rest: string)
    requires s == pre + run + [c] + rest
    requires c !in run
    ensures IndexOfChar(s, c, |pre|) == |pre| + |run|
  {
    assert s[|pre| + |run|] == c;
    forall j | |pre| <= j < |pre| + |run| ensures s[j] != c {
      assert s[j] == run[j - |pre|];
    }
  }

  /** A run of characters satisfying `p`, followed by the end of the text or
      by a character that does not, ends where `SkipWhile` stops. */
  lemma SkipRun(s: string, pre: string, run: string, rest: string, p: char -> bool)
    requires s == pre + run + rest
    requires forall i :: 0 <= i < |run| ==> p(run[i])
    requires rest == [] || !p(rest[0])
    ensures SkipWhile(s, |pre|, p) == |pre| + |run|
  {
    forall j | |pre| <= j < |pre| + |run| ensures p(s[j]) {
      assert s[j] == run[j - |pre|];
    }
    if rest != [] {
      assert s[|pre| + |run|] == rest[0];
    }
  }

  lemma Middle(s: string, pre: string, mid: string, post: string)
    requires s == pre + mid + post
    ensures s[|pre|..|pre| + |mid|] == mid
  {
  }

  /** The quoted key's first occurrence is after `before`. */
  lemma KeyAt(json: string, key: string, before: string, rest: string)
    requires json == before + Quoted(key) + rest
    requires forall j :: 0 <= j < |before| ==> !OccursAt(json, Quoted(key), j)
    ensures FindKeyIndex(json, key) == |before|
  {
    assert json[|before|..|before| + |Quoted(key)|] == Quoted(key);
    assert OccursAt(json, Quoted(key), |before|);
  }

  /** After a key that holds no colon, a colon and whitespace, the value
      starts at `value`. */
  lemma ValueStartAfterKey(json: string, key: string, before: string, ws: string, value: string)
    requires json == before + Quoted(key) + [':'] + ws + value
    requires ':' !in key
    requires forall i :: 0 <= i < |ws| ==> IsWhitespace(ws[i])
    requires value == [] || !IsWhitespace(value[0])
    ensures ValueStart(json, |before|) == |before| + |Quoted(key)| + 1 + |ws|
  {
    FirstCharAfter(json, before, Quoted(key), ':', ws + value);
    SkipRun(json, before + Quoted(key) + [':'], ws, value, IsWhitespace);
  }

  /** With the key found and its value starting at `vs`, the value is read
      according to its first character. */
  lemma GetArgAt(json: string, key: string, vs: nat)
    requires FindKeyIndex(json, key) != -1 && ValueStart(json, FindKeyIndex(json, key)) == vs
    requires vs < |json|
    ensures json[vs] == '"' ==> GetArg(json, key) == match JsonString(json, vs)
                                                    case Ok(s) => Ok(Some(s))
                                                    case Throws(f) => Throws(f)
    ensures json[vs] != '"' && json[vs] != '{' ==> GetArg(json, key) == Ok(Some(RawValue(json, vs)))
    ensures json[vs] == '{' ==> GetArg(json, key) == Ok(JsonObject(json, vs))
  {
  }

  /** A quoted text without inner quotes reads back as that text. */
  lemma JsonStringOfQuoted(json: string, pre: string, v: string, after: string)
    requires json == pre + Quoted(v) + after
    requires '"' !in v
    ensures JsonString(json, |pre|) == Ok(v)
  {
    FirstCharAfter(json, pre + ['"'], v, '"', after);
    Middle(json, pre + ['"'], v, ['"'] + after);
  }

  /** A key whose first occurrence is followed by a colon, whitespace and a
      quoted string gives that string. */
  lemma GetArgReadsString(json: string, key: string, before: string, ws: string,
                          v: string, after: string)
    requires json == before + Quoted(key) + [':'] + ws + Quoted(v) + after
    requires forall j :: 0 <= j < |before| ==> !OccursAt(json, Quoted(key), j)
    requires ':' !in key
    requires forall i :: 0 <= i < |ws| ==> IsWhitespace(ws[i])
    requires '"' !in v
    ensures GetArg(json, key) == Ok(Some(v))
  {
    var head := before + Quoted(key) + [':'] + ws;
    KeyAt(json, key, before, [':'] + ws + Quoted(v) + after);
    ValueStartAfterKey(json, key, before, ws, Quoted(v) + after);
    var vs := |head|;
    assert json[vs] == '"';
    JsonStringOfQuoted(json, head, v, after);
    GetArgAt(json, key, vs);
  }

  /** A key whose first occurrence is followed by a colon, whitespace and an
      unquoted token, ended by the text's end or another character, gives
      that token. */
  lemma GetArgReadsToken(json: string, key: string, before: string, ws: string,
                         v: string, after: string)
    requires json == before + Quoted(key) + [':'] + ws + v + after
    requires forall j :: 0 <= j < |before| ==> !OccursAt(json, Quoted(key), j)
    requires ':' !in key
    requires forall i :: 0 <= i < |ws| ==> IsWhitespace(ws[i])
    requires v != [] && forall i :: 0 <= i < |v| ==> IsTokenChar(v[i])
    requires after == [] || !IsTokenChar(after[0])
    ensures GetArg(json, key) == Ok(Some(v))
  {
    assert !IsWhitespace(v[0]);
    ValueAfterKey(json, key, before, ws, v, after);
    RawValueOfToken(json, before + Quoted(key) + [':'] + ws, v, after);
    GetArgAt(json, key, |before| + |Quoted(key)| + 1 + |ws|);
  }

  /** Where the value after the key starts when it begins with a
      non-whitespace character. */
  lemma ValueAfterKey(json: string, key: string, before: string, ws: string,
                      v: string, after: string)
    requires json == before + Quoted(key) + [':'] + ws + v + after
    requires forall j :: 0 <= j < |before| ==> !OccursAt(json, Quoted(key), j)
    requires ':' !in key
    requires forall i :: 0 <= i < |ws| ==> IsWhitespace(ws[i])
    requires v != [] && !IsWhitespace(v[0])
    ensures FindKeyIndex(json, key) == |before|
    ensures ValueStart(json, |before|) == |before| + |Quoted(key)| + 1 + |ws|
  {
    KeyAt(json, key, before, [':'] + ws + v + after);
    ValueStartAfterKey(json, key, before, ws, v + after);
  }

  /** A key whose first occurrence is followed by a colon, whitespace and an
      object, the first `}` of which that closes its braces is its last
      character, gives that object. */
  lemma GetArgReadsObject(json: string, key: string, before: string, ws: string,
                          obj: string, after: string)
    requires json == before + Quoted(key) + [':'] + ws + obj + after
    requires forall j :: 0 <= j < |before| ==> !OccursAt(json, Quoted(key), j)
    requires ':' !in key
    requires forall i :: 0 <= i < |ws| ==> IsWhitespace(ws[i])
    requires obj != [] && obj[0] == '{' && obj[|obj| - 1] == '}' && Depth(obj) == 0
    requires forall k :: 0 <= k < |obj| - 1 && obj[k] == '}' ==> Depth(obj[..k + 1]) != 0
    ensures GetArg(json, key) == Ok(Some(obj))
  {
    ValueAfterKey(json, key, before, ws, obj, after);
    JsonObjectOfBalanced(json, before + Quoted(key) + [':'] + ws, obj, after);
    GetArgAt(json, key, |before| + |Quoted(key)| + 1 + |ws|);
  }

  /** An object whose braces first close at its last character reads back as
      itself. */
  lemma JsonObjectOfBalanced(json: string, pre: string, obj: string, after: string)
    requires json == pre + obj + after
    requires obj != [] && obj[0] == '{' && obj[|obj| - 1] == '}' && Depth(obj) == 0
    requires forall k :: 0 <= k < |obj| - 1 && obj[k] == '}' ==> Depth(obj[..k + 1]) != 0
    ensures |pre| < |json| && json[|pre|] == '{'
    ensures JsonObject(json, |pre|) == Some(obj)
  {
    var s := |pre|;
    var e := s + |obj| - 1;
    Middle(json, pre, obj, after);
    assert json[s..e + 1] == obj;
    assert ClosesAt(json, s, e);
    forall k | k < e ensures !ClosesAt(json, s, k) {
      if s <= k && json[k] == '}' {
        assert json[s..k + 1] == obj[..k - s + 1];
        assert obj[k - s] == json[k];
      }
    }
    var r := JsonObject(json, s);
    var e' :| && ClosesAt(json, s, e')
              && (forall k :: k < e' ==> !ClosesAt(json, s, k))
              && r.value == json[s..e' + 1];
    assert !(e < e');
  }

  /** A maximal token run reads back as itself. */
  lemma RawValueOfToken(json: string, head: string, v: string, after: string)
    requires json == head + v + after
    requires v != [] && forall i :: 0 <= i < |v| ==> IsTokenChar(v[i])
    requires after == [] || !IsTokenChar(after[0])
    ensures |head| < |json| && json[|head|] == v[0]
    ensures RawValue(json, |head|) == v
  {
    SkipRun(json, head, v, after, IsTokenChar);
    Middle(json, head, v, after);
  }

  // ---------------------------------------------------------------------------
  // Module credits

  /** `parseModuleCredit`: the parsed integer when it lies in 1..20, and -1
      otherwise, including for text that is not an integer. */
  function ParseModuleCredit(rawText: string): (r: int32)
    ensures r == -1 || 1 <= r <= 20
    ensures r != -1 <==> ParseInt(rawText).Some? && 1 <= ParseInt(rawText).value <= 20
    ensures r != -1 ==> ParseInt(rawText) == Some(r)
  {
    match ParseInt(rawText)
    case None => -1
    case Some(n) => if n > 0 && n <= 20 then n else -1
  }

  /** The decimal text of a credit count is accepted exactly when the count
      lies in 1..20. */
  lemma ParseModuleCreditOfDecimal(n: int32)
    ensures ParseModuleCredit(ToDecimal(n)) == if 1 <= n <= 20 then n else -1
  {
    ParseIntToDecimal(n);
  }

  // ---------------------------------------------------------------------------
  // Prerequisites

  /** `extractArrayContent`: the text strictly between the first `[` and the
      last `]`; null when either is missing; `substring` throws when the last
      `]` precedes the first `[`. */
  function ExtractArrayContent(json: string): (r: Outcome<Option<string>>)
    ensures r == Ok(None) <==> '[' !in json || ']' !in json
    ensures r.Throws? <==> && '[' in json && ']' in json
                           && (forall i, j | 0 <= i < |json| && 0 <= j < |json|
                                 && json[i] == ']' && json[j] == '[' :: i < j)
    ensures r.Throws? ==> r.fault == BracketsReversed
    ensures r.Ok? && r.value.Some? ==>
              exists a, b :: && 0 <= a < b < |json|
                             && json[a] == '[' && json[b] == ']'
                             && '[' !in json[..a] && ']' !in json[b + 1..]
                             && r.value.value == json[a + 1..b]
  {
    var arrayStart := IndexOfChar(json, '[', 0);
    var arrayEnd := LastIndexOfChar(json, ']');
    BracketIndices(json);
    if arrayStart == -1 || arrayEnd == -1 then Ok(None)
    else if arrayEnd < arrayStart + 1 then Throws(BracketsReversed)
    else
      assert '[' !in json[..arrayStart] && ']' !in json[arrayEnd + 1..];
      Ok(Some(json[arrayStart + 1..arrayEnd]))
  }

  /** How the first `[` and the last `]` reflect the brackets of `json`. */
  lemma BracketIndices(json: string)
    ensures IndexOfChar(json, '[', 0) == -1 <==> '[' !in json
    ensures LastIndexOfChar(json, ']') == -1 <==> ']' !in json
    ensures && IndexOfChar(json, '[', 0) != -1 && LastIndexOfChar(json, ']') != -1
            ==> (LastIndexOfChar(json, ']') < IndexOfChar(json, '[', 0)
                 <==> (forall i, j | 0 <= i < |json| && 0 <= j < |json|
                         && json[i] == ']' && json[j] == '[' :: i < j))
  {
    var a := IndexOfChar(json, '[', 0);
    var b := LastIndexOfChar(json, ']');
    if a != -1 && b != -1 && b < a {
      forall i, j | 0 <= i < |json| && 0 <= j < |json| && json[i] == ']' && json[j] == '['
        ensures i < j
      {
        assert i <= b && a <= j;
      }
    }
  }

  /** The pieces between commas, empty ones included. */
  function SplitAtCommas(s: string): (parts: seq<string>)
    decreases |s|
    ensures |parts| >= 1
    ensures forall i :: 0 <= i < |parts| ==> ',' !in parts[i]
  {
    var i := IndexOfChar(s, ',', 0);
    if i == -1 then [s] else [s[..i]] + SplitAtCommas(s[i + 1..])
  }

  function JoinWithCommas(parts: seq<string>): string
    requires |parts| >= 1
  {
    if |parts| == 1 then parts[0] else parts[0] + [','] + JoinWithCommas(parts[1..])
  }

  /** Joining the pieces with commas gives back the text. */
  lemma {:induction false} JoinSplitAtCommas(s: string)
    ensures JoinWithCommas(SplitAtCommas(s)) == s
    decreases |s|
  {
    var i := IndexOfChar(s, ',', 0);
    if i != -1 {
      JoinSplitAtCommas(s[i + 1..]);
      assert s == s[..i] + [','] + s[i + 1..];
    }
  }

  lemma FirstComma(p: string, rest: string)
    requires ',' !in p
    ensures var s := p + [','] + rest;
            && IndexOfChar(s, ',', 0) == |p| && s[..|p|] == p && s[|p| + 1..] == rest
  {
    var s := p + [','] + rest;
    FirstCharAfter(s, [], p, ',', rest);
    assert s[..|p|] == p;
    assert s[|p| + 1..] == rest;
  }

  /** Splitting comma-free pieces joined with commas gives back the pieces. */
  lemma {:induction false} SplitJoinWithCommas(parts: seq<string>)
    requires |parts| >= 1
    requires forall i :: 0 <= i < |parts| ==> ',' !in parts[i]
    ensures SplitAtCommas(JoinWithCommas(parts)) == parts
    decreases |parts|
  {
    if |parts| == 1 {
      assert IndexOfChar(parts[0], ',', 0) == -1;
    } else {
      var rest := JoinWithCommas(parts[1..]);
      FirstComma(parts[0], rest);
      SplitJoinWithCommas(parts[1..]);
    }
  }

  /** The pieces without their trailing empty ones. */
  function DropTrailingEmpty(parts: seq<string>): (r: seq<string>)
    ensures |r| <= |parts| && r == parts[..|r|]
    ensures r == [] || r[|r| - 1] != []
    ensures forall i :: |r| <= i < |parts| ==> parts[i] == []
  {
    if parts != [] && parts[|parts| - 1] == [] then DropTrailingEmpty(parts[..|parts| - 1])
    else parts
  }

  /** `splitArrayEntries`, that is `String.split(",")`: the pieces between
      commas with trailing empty pieces removed; a text with no comma is a
      single entry, even when it is empty. */
  function SplitEntries(s: string): (entries: seq<string>)
    ensures forall i :: 0 <= i < |entries| ==> ',' !in entries[i]
    ensures ',' !in s ==> entries == [s]
    ensures ',' in s ==> && |entries| <= |SplitAtCommas(s)|
                         && entries == SplitAtCommas(s)[..|entries|]
                         && (entries == [] || entries[|entries| - 1] != [])
                         && forall i :: |entries| <= i < |SplitAtCommas(s)| ==> SplitAtCommas(s)[i] == []
  {
    if ',' !in s then [s] else DropTrailingEmpty(SplitAtCommas(s))
  }

  /** `i` holds the first `c` of `s`. */
  predicate FirstAt(s: string, c: char, i: int) {
    0 <= i < |s| && s[i] == c && forall j :: 0 <= j < i ==> s[j] != c
  }

  /** `extractModuleCode`: the text between the entry's first `"` and its
      first `:`; null when either is missing; `substring` throws when the
      colon comes first. */
  function ExtractModuleCode(entry: string): (r: Outcome<Option<string>>)
    ensures r == Ok(None) <==> '"' !in entry || ':' !in entry
    ensures r.Throws? <==> exists q, c :: FirstAt(entry, '"', q) && FirstAt(entry, ':', c) && c < q
    ensures r.Throws? ==> r.fault == ColonBeforeQuote
    ensures r.Ok? && r.value.Some? ==>
              exists q, c :: && FirstAt(entry, '"', q) && FirstAt(entry, ':', c) && q < c
                             && r.value.value == entry[q + 1..c]
    ensures r.Ok? && r.value.Some? ==> ':' !in r.value.value
  {
    var quoteStart := IndexOfChar(entry, '"', 0);
    var colon := IndexOfChar(entry, ':', 0);
    if quoteStart != -1 && colon != -1 then
      assert FirstAt(entry, '"', quoteStart) && FirstAt(entry, ':', colon);
      if colon < quoteStart + 1 then Throws(ColonBeforeQuote)
      else
        var code := entry[quoteStart + 1..colon];
        assert forall j :: 0 <= j < |code| ==> code[j] == entry[quoteStart + 1 + j];
        Ok(Some(code))
    else Ok(None)
  }

  /** The codes `parseModuleCodes` collects: entries in order, each giving its
      code or nothing; the first entry that throws ends the loop. */
  function ModuleCodes(entries: seq<string>): (r: Outcome<seq<string>>)
    ensures r.Ok? <==> forall i :: 0 <= i < |entries| ==> ExtractModuleCode(entries[i]).Ok?
    ensures r.Throws? ==> r.fault == ColonBeforeQuote
    ensures r.Ok? ==> |r.value| <= |entries|
    ensures r.Ok? ==> forall i :: 0 <= i < |r.value| ==> ':' !in r.value[i]
  {
    if entries == [] then Ok([])
    else
      var codes :- ModuleCodes(entries[..|entries| - 1]);
      var code :- ExtractModuleCode(entries[|entries| - 1]);
      if code.Some? then Ok(codes + [code.value]) else Ok(codes)
  }

  /** Codes come out in entry order: the codes of two runs of entries are the
      codes of the first run followed by those of the second. */
  lemma {:induction false} ModuleCodesAppend(a: seq<string>, b: seq<string>)
    requires ModuleCodes(a).Ok? && ModuleCodes(b).Ok?
    ensures ModuleCodes(a + b) == Ok(ModuleCodes(a).value + ModuleCodes(b).value)
    decreases |b|
  {
    if b == [] {
      assert a + b == a;
      assert ModuleCodes(a).value + ModuleCodes(b).value == ModuleCodes(a).value;
    } else {
      var b' := b[..|b| - 1];
      var last := b[|b| - 1];
      assert (a + b)[..|a + b| - 1] == a + b';
      assert (a + b)[|a + b| - 1] == last;
      assert ModuleCodes(b').Ok? by {
        assert forall i :: 0 <= i < |b'| ==> b'[i] == b[i];
      }
      ModuleCodesAppend(a, b');
      var codesA, codesB' := ModuleCodes(a).value, ModuleCodes(b').value;
      var x := ExtractModuleCode(last);
      assert x.Ok?;
      assert ModuleCodes(b) == if x.value.Some? then Ok(codesB' + [x.value.value]) else Ok(codesB');
      assert ModuleCodes(a + b)
               == if x.value.Some? then Ok(codesA + codesB' + [x.value.value]) else Ok(codesA + codesB');
      if x.value.Some? {
        assert codesA + codesB' + [x.value.value] == codesA + (codesB' + [x.value.value]);
      }
    }
  }

  /** One entry alone gives its own code, nothing, or its exception, as
      `extractModuleCode` gives a code, null, or throws. */
  lemma ModuleCodesOne(e: string)
    ensures ModuleCodes([e]) == match ExtractModuleCode(e)
                                case Throws(f) => Throws(f)
                                case Ok(None) => Ok([])
                                case Ok(Some(c)) => Ok([c])
  {
    assert [e][..0] == [] && [e][0] == e;
    assert ModuleCodes([]) == Ok([]);
    match ExtractModuleCode(e)
    case Throws(f) =>
    case Ok(None) =>
    case Ok(Some(c)) =>
      assert [] + [c] == [c];
  }

  /** An entry lacking a `"` or a `:` is dropped: the codes around it are
      unchanged. */
  lemma ModuleCodesDropsEntry(a: seq<string>, e: string, b: seq<string>)
    requires ModuleCodes(a).Ok? && ModuleCodes(b).Ok?
    requires '"' !in e || ':' !in e
    ensures ModuleCodes(a + [e] + b) == Ok(ModuleCodes(a).value + ModuleCodes(b).value)
  {
    ModuleCodesOne(e);
    ModuleCodesAppend(a, [e]);
    assert ModuleCodes(a).value + [] == ModuleCodes(a).value;
    ModuleCodesAppend(a + [e], b);
  }

  /** An entry with a code contributes exactly that code, in its place. */
  lemma ModuleCodesKeepsEntry(a: seq<string>, e: string, b: seq<string>, c: string)
    requires ModuleCodes(a).Ok? && ModuleCodes(b).Ok?
    requires ExtractModuleCode(e) == Ok(Some(c))
    ensures ModuleCodes(a + [e] + b) == Ok(ModuleCodes(a).value + [c] + ModuleCodes(b).value)
  {
    ModuleCodesOne(e);
    ModuleCodesAppend(a, [e]);
    ModuleCodesAppend(a + [e], b);
  }

  /** An entry cut from a nested prerequisite tree, `{"or":["A:D"`, yields
      the text between its first `"` and its first `:`, which is the
      operator's name and its closing quote rather than a module code. */
  lemma NestedTreeEntry()
    ensures ExtractModuleCode("{\"or\":[\"A:D\"") == Ok(Some("or\""))
  {
    var e := "{\"or\":[\"A:D\"";
    assert e[0] != '"' && e[1] == '"';
    assert e[0] != ':' && e[2] != ':' && e[3] != ':' && e[4] != ':' && e[5] == ':';
    assert IndexOfChar(e, '"', 0) == 1;
    assert IndexOfChar(e, ':', 0) == 5;
    assert e[2..5] == "or\"";
  }

  /** `parseModuleCodes`: appends each entry's code to a list. */
  method ParseModuleCodes(entries: seq<string>) returns (r: Outcome<seq<string>>)
    ensures r == ModuleCodes(entries)
  {
    var moduleCodes: seq<string> := [];
    for i := 0 to |entries|
      invariant ModuleCodes(entries[..i]) == Ok(moduleCodes)
    {
      assert entries[..i + 1][..i] == entries[..i];
      var moduleCode := ExtractModuleCode(entries[i]);
      if moduleCode.Throws? {
        return Throws(moduleCode.fault);
      }
      if moduleCode.value.Some? {
        moduleCodes := moduleCodes + [moduleCode.value.value];
      }
    }
    assert entries[..|entries|] == entries;
    return Ok(moduleCodes);
  }

  /** `parsePrereq`: the codes of the comma-separated entries of the array
      text; no array gives no codes. */
  function ParsePrereq(rawText: string): (r: Outcome<seq<string>>)
    ensures ExtractArrayContent(rawText) == Ok(None) ==> r == Ok([])
    ensures ExtractArrayContent(rawText).Throws? ==> r == Throws(BracketsReversed)
    ensures r.Ok? && ExtractArrayContent(rawText).Ok? && ExtractArrayContent(rawText).value.Some? ==>
              |r.value| <= |SplitEntries(ExtractArrayContent(rawText).value.value)|
    ensures r.Ok? ==> forall i :: 0 <= i < |r.value| ==> ':' !in r.value[i]
    ensures ExtractArrayContent(rawText) == Ok(Some([])) ==> r == Ok([])
  {
    var arrayContent :- ExtractArrayContent(rawText);
    if arrayContent.None? then Ok([])
    else ModuleCodes(SplitEntries(arrayContent.value))
  }

  /** A prerequisite entry as the catalogue writes it, `"CODE:GRADE"`. */
  function Entry(code: string, grade: string): string {
    ['"'] + code + [':'] + grade + ['"']
  }

  lemma EntryCode(code: string, grade: string)
    requires '"' !in code && ':' !in code
    ensures ExtractModuleCode(Entry(code, grade)) == Ok(Some(code))
  {
    var e := Entry(code, grade);
    assert e[0] == '"';
    assert e[1 + |code|] == ':';
    forall j | 0 <= j < 1 + |code| ensures e[j] != ':' {
      if j > 0 {
        assert e[j] == code[j - 1];
      }
    }
    assert IndexOfChar(e, '"', 0) == 0;
    assert IndexOfChar(e, ':', 0) == 1 + |code|;
    assert e[1..1 + |code|] == code;
  }

  function Entries(codes: seq<string>, grades: seq<string>): (r: seq<string>)
    requires |codes| == |grades|
    ensures |r| == |codes|
  {
    seq(|codes|, i requires 0 <= i < |codes| => Entry(codes[i], grades[i]))
  }

  lemma {:induction false} EntriesCodes(codes: seq<string>, grades: seq<string>)
    requires |codes| == |grades|
    requires forall i :: 0 <= i < |codes| ==> '"' !in codes[i] && ':' !in codes[i]
    ensures ModuleCodes(Entries(codes, grades)) == Ok(codes)
    decreases |codes|
  {
    var es := Entries(codes, grades);
    if codes != [] {
      var n := |codes| - 1;
      assert es[..n] == Entries(codes[..n], grades[..n]);
      EntriesCodes(codes[..n], grades[..n]);
      EntryCode(codes[n], grades[n]);
      assert codes == codes[..n] + [codes[n]];
    }
  }

  /** The text between a first `[` and a last `]` is the array content. */
  lemma ArrayContentBetween(before: string, content: string, after: string)
    requires '[' !in before && ']' !in after
    ensures ExtractArrayContent(before + ['['] + content + [']'] + after) == Ok(Some(content))
  {
    var json := before + ['['] + content + [']'] + after;
    var a := |before|;
    var b := a + 1 + |content|;
    FirstCharAfter(json, [], before, '[', content + [']'] + after);
    assert json[b] == ']';
    forall j | b < j < |json| ensures json[j] != ']' {
      assert json[j] == after[j - b - 1];
    }
    Middle(json, before + ['['], content, [']'] + after);
  }

  /** Comma-free pieces, the last one not empty, are what `split(",")` makes
      of their join. */
  lemma SplitEntriesOfJoin(parts: seq<string>)
    requires |parts| >= 1 && parts[|parts| - 1] != []
    requires forall i :: 0 <= i < |parts| ==> ',' !in parts[i]
    ensures SplitEntries(JoinWithCommas(parts)) == parts
  {
    var s := JoinWithCommas(parts);
    SplitJoinWithCommas(parts);
    if |parts| > 1 {
      FirstComma(parts[0], JoinWithCommas(parts[1..]));
      assert s[|parts[0]|] == ',';
    }
  }

  lemma EntryHasNoComma(code: string, grade: string)
    requires ',' !in code && ',' !in grade
    ensures ',' !in Entry(code, grade)
  {
    var e := Entry(code, grade);
    forall j | 0 <= j < |e| ensures e[j] != ',' {
      if 1 <= j < 1 + |code| {
        assert e[j] == code[j - 1];
      } else if 2 + |code| <= j < |e| - 1 {
        assert e[j] == grade[j - 2 - |code|];
      }
    }
  }

  /** An array of `"CODE:GRADE"` entries, whose codes and grades hold no
      comma, behind the text's first `[` and before its last `]`, gives its
      codes in order. */
  lemma ParsePrereqReadsEntries(before: string, codes: seq<string>, grades: seq<string>,
                                after: string)
    requires |codes| == |grades| >= 1
    requires forall i :: 0 <= i < |codes| ==> '"' !in codes[i] && ':' !in codes[i] && ',' !in codes[i]
    requires forall i :: 0 <= i < |grades| ==> ',' !in grades[i]
    requires '[' !in before && ']' !in after
    ensures ParsePrereq(before + ['['] + JoinWithCommas(Entries(codes, grades)) + [']'] + after)
              == Ok(codes)
  {
    var es := Entries(codes, grades);
    ArrayContentBetween(before, JoinWithCommas(es), after);
    forall i | 0 <= i < |es| ensures ',' !in es[i] {
      EntryHasNoComma(codes[i], grades[i]);
    }
    SplitEntriesOfJoin(es);
    EntriesCodes(codes, grades);
  }

  /** Empty entries at the end add no code. */
  lemma {:induction false} ModuleCodesTrailingEmpty(es: seq<string>, n: nat)
    requires n <= |es|
    requires forall i :: n <= i < |es| ==> es[i] == []
    ensures ModuleCodes(es) == ModuleCodes(es[..n])
    decreases |es|
  {
    if n < |es| {
      var front := es[..|es| - 1];
      assert ExtractModuleCode(es[|es| - 1]) == Ok(None);
      ModuleCodesTrailingEmpty(front, n);
      assert front[..n] == es[..n];
    } else {
      assert es[..n] == es;
    }
  }

  /** Any array of comma-free entries behind the text's first `[` and before
      its last `]` gives exactly the codes `extractModuleCode` finds in its
      entries: entries without a code, empty ones included, are dropped, and
      an entry's exception is the parser's. This covers `[]` (one empty
      entry) and an array ending in a comma. */
  lemma ParsePrereqOfEntries(before: string, es: seq<string>, after: string)
    requires |es| >= 1
    requires forall i :: 0 <= i < |es| ==> ',' !in es[i]
    requires '[' !in before && ']' !in after
    ensures ParsePrereq(before + ['['] + JoinWithCommas(es) + [']'] + after) == ModuleCodes(es)
  {
    var content := JoinWithCommas(es);
    ArrayContentBetween(before, content, after);
    SplitJoinWithCommas(es);
    if |es| == 1 {
      assert SplitEntries(content) == es;
    } else {
      FirstComma(es[0], JoinWithCommas(es[1..]));
      assert content[|es[0]|] == ',';
      ModuleCodesTrailingEmpty(es, |SplitEntries(content)|);
    }
  }

  /** An empty array gives no codes. */
  lemma ParsePrereqEmptyArray()
    ensures ParsePrereq("[]") == Ok([])
  {
    ParsePrereqOfEntries([], [[]], []);
    assert [] + ['['] + JoinWithCommas([[]]) + [']'] + [] == "[]";
    ModuleCodesOne([]);
  }

  // ---------------------------------------------------------------------------
  // getModule, after the fetch

  /** `isValidRawData`: every field was found. */
  predicate IsValidRawData(code: Option<string>, name: Option<string>, mc: Option<string>,
                           prereq: Option<string>) {
    code.Some? && name.Some? && mc.Some? && prereq.Some?
  }

  /** `isValidParsedData`: the credits parsed and at least one code was found. */
  predicate IsValidParsedData(parsedMc: int, parsedPrereq: seq<string>) {
    parsedMc != -1 && parsedPrereq != []
  }

  /** `getModule` from the fetched text on: the four fields are looked up in
      order, a missing one rejects the module (null), then bad credits or an
      empty prerequisite list reject it, and otherwise the codes become one
      AND-group of a `"core"` module. */
  function GetModule(json: string): (r: Outcome<Option<Module>>)
    ensures r.Ok? && r.value.Some? ==>
              var m := r.value.value;
              && m.Valid() && m.moduleType == FETCHED_TYPE && 1 <= m.mc <= 20
              && |m.prerequisites| == 1 && m.prerequisites[0] != []
              && GetArg(json, CODE_KEY) == Ok(Some(m.code))
              && GetArg(json, NAME_KEY) == Ok(Some(m.name))
              && (exists t :: GetArg(json, MC_KEY) == Ok(Some(t)) && ParseModuleCredit(t) == m.mc)
              && (exists t :: GetArg(json, PREREQ_KEY) == Ok(Some(t))
                                && ParsePrereq(t) == Ok(m.prerequisites[0]))
    ensures var code, name, mc, prereq := GetArg(json, CODE_KEY), GetArg(json, NAME_KEY),
                                          GetArg(json, MC_KEY), GetArg(json, PREREQ_KEY);
            && code.Ok? && name.Ok? && mc.Ok? && prereq.Ok?
            && (code.value.None? || name.value.None? || mc.value.None? || prereq.value.None?)
            ==> r == Ok(None)
    ensures var code, name, mc, prereq := GetArg(json, CODE_KEY), GetArg(json, NAME_KEY),
                                          GetArg(json, MC_KEY), GetArg(json, PREREQ_KEY);
            && code.Ok? && name.Ok? && mc.Ok? && prereq.Ok?
            && code.value.Some? && name.value.Some? && mc.value.Some? && prereq.value.Some?
            && ParsePrereq(prereq.value.value).Ok?
            && (ParseModuleCredit(mc.value.value) == -1 || ParsePrereq(prereq.value.value).value == [])
            ==> r == Ok(None)
  {
    var code :- GetArg(json, CODE_KEY);
    var name :- GetArg(json, NAME_KEY);
    var mc :- GetArg(json, MC_KEY);
    var prereq :- GetArg(json, PREREQ_KEY);
    if !IsValidRawData(code, name, mc, prereq) then Ok(None)
    else
      var parsedMc := ParseModuleCredit(mc.value);
      var parsedPrereq :- ParsePrereq(prereq.value);
      if !IsValidParsedData(parsedMc, parsedPrereq) then Ok(None)
      else if code.value == [] || name.value == [] then Throws(EmptyField)
      else Ok(Some(NewModule(code.value, name.value, parsedMc, FETCHED_TYPE, [parsedPrereq])))
  }

  /** `isValidRawData` fails, and `getModule` gives null, when a field is
      missing; with all four found it passes. */
  lemma GetModuleRejectsMissingField(json: string)
    requires GetArg(json, CODE_KEY).Ok? && GetArg(json, NAME_KEY).Ok?
    requires GetArg(json, MC_KEY).Ok? && GetArg(json, PREREQ_KEY).Ok?
    ensures var code, name, mc, prereq := GetArg(json, CODE_KEY).value, GetArg(json, NAME_KEY).value,
                                          GetArg(json, MC_KEY).value, GetArg(json, PREREQ_KEY).value;
            && (IsValidRawData(code, name, mc, prereq) <==> None !in [code, name, mc, prereq])
            && (!IsValidRawData(code, name, mc, prereq) ==> GetModule(json) == Ok(None))
  {
  }

  /** `isValidParsedData` of parsed credits passes exactly when the credits
      text is an integer in 1..20 and some code was found; when it fails,
      `getModule` gives null. */
  lemma GetModuleRejectsUnparsed(json: string, mcText: string, prereqText: string, codes: seq<string>)
    requires GetArg(json, CODE_KEY).Ok? && GetArg(json, CODE_KEY).value.Some?
    requires GetArg(json, NAME_KEY).Ok? && GetArg(json, NAME_KEY).value.Some?
    requires GetArg(json, MC_KEY) == Ok(Some(mcText))
    requires GetArg(json, PREREQ_KEY) == Ok(Some(prereqText))
    requires ParsePrereq(prereqText) == Ok(codes)
    ensures (IsValidParsedData(ParseModuleCredit(mcText), codes)
             <==> (ParseInt(mcText).Some? && 1 <= ParseInt(mcText).value <= 20 && codes != []))
    ensures !IsValidParsedData(ParseModuleCredit(mcText), codes) ==> GetModule(json) == Ok(None)
  {
  }

  /** Four fields found, credits in range, at least one prerequisite code and
      a non-empty code and name make a module of exactly those values. */
  lemma GetModuleBuilds(json: string, code: string, name: string, mcText: string,
                        prereqText: string, codes: seq<string>)
    requires GetArg(json, CODE_KEY) == Ok(Some(code)) && GetArg(json, NAME_KEY) == Ok(Some(name))
    requires GetArg(json, MC_KEY) == Ok(Some(mcText)) && GetArg(json, PREREQ_KEY) == Ok(Some(prereqText))
    requires ParseModuleCredit(mcText) != -1
    requires ParsePrereq(prereqText) == Ok(codes) && codes != []
    requires code != [] && name != []
    ensures GetModule(json)
              == Ok(Some(Module(code, name, ParseModuleCredit(mcText), FETCHED_TYPE, [codes])))
  {
  }

  /** `getModule`'s exceptions: a `getArg` exception escapes, the fields taken
      in the order code, name, credits, prerequisites; with all four found, a
      `parsePrereq` exception escapes; and once both checks pass, the
      constructor's assertion throws exactly when the code or name is empty. */
  lemma GetModuleThrows(json: string)
    ensures GetArg(json, CODE_KEY).Throws? ==> GetModule(json) == Throws(GetArg(json, CODE_KEY).fault)
    ensures (GetArg(json, CODE_KEY).Ok? && GetArg(json, NAME_KEY).Throws?)
              ==> GetModule(json) == Throws(GetArg(json, NAME_KEY).fault)
    ensures (GetArg(json, CODE_KEY).Ok? && GetArg(json, NAME_KEY).Ok? && GetArg(json, MC_KEY).Throws?)
              ==> GetModule(json) == Throws(GetArg(json, MC_KEY).fault)
    ensures (&& GetArg(json, CODE_KEY).Ok? && GetArg(json, NAME_KEY).Ok? && GetArg(json, MC_KEY).Ok?
             && GetArg(json, PREREQ_KEY).Throws?)
              ==> GetModule(json) == Throws(GetArg(json, PREREQ_KEY).fault)
    ensures var code, name, mc, prereq := GetArg(json, CODE_KEY), GetArg(json, NAME_KEY),
                                          GetArg(json, MC_KEY), GetArg(json, PREREQ_KEY);
            && code.Ok? && name.Ok? && mc.Ok? && prereq.Ok?
            && IsValidRawData(code.value, name.value, mc.value, prereq.value)
            && ParsePrereq(prereq.value.value).Throws?
            ==> GetModule(json) == Throws(ParsePrereq(prereq.value.value).fault)
    ensures var code, name, mc, prereq := GetArg(json, CODE_KEY), GetArg(json, NAME_KEY),
                                          GetArg(json, MC_KEY), GetArg(json, PREREQ_KEY);
            && code.Ok? && name.Ok? && mc.Ok? && prereq.Ok?
            && IsValidRawData(code.value, name.value, mc.value, prereq.value)
            && ParsePrereq(prereq.value.value).Ok?
            && IsValidParsedData(ParseModuleCredit(mc.value.value), ParsePrereq(prereq.value.value).value)
            ==> (GetModule(json) == Throws(EmptyField) <==> (code.value.value == [] || name.value.value == []))
  {
  }
}
