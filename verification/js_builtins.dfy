/**
  The pieces of the JavaScript runtime that the item store's request handlers
  rely on: the values a parsed JSON body or query string can hold, `typeof`,
  truthiness, `String(...)`, and the string methods `toLowerCase`, `trim` and
  `includes`.
 */
module JsBuiltins {
  import opened Wrappers

  /**
    A field of a JSON request body, as `express.json()` delivers it; an absent
    key reads as `Undefined`. `Obj` stands for an object or an array: both are
    truthy and of type "object", which is all the routes look at.
   */
  datatype JsValue = Undefined | Null | Bool(b: bool) | Num(n: real) | Str(s: string) | Obj

  /** A query-string parameter, as Express's query parser delivers it. */
  datatype QueryValue =
    | Missing                   // parameter not given
    | Text(text: string)        // `?q=abc`
    | Many(parts: seq<string>)  // `?q=a&q=b` becomes an array of strings
    | Nested(ownToString: bool) // `?q[k]=v` becomes a plain object; the flag says whether one key is `toString`

  /**
    JavaScript's ToBoolean: `undefined`, `null`, `false`, `0` and `""` are the
    falsy values a JSON body field can hold; everything else is truthy.
   */
  predicate Truthy(v: JsValue): (b: bool)
    ensures !b <==> v in {Undefined, Null, Bool(false), Num(0.0), Str([])}
  {
    match v
    case Undefined => false
    case Null => false
    case Bool(b) => b
    case Num(n) => n != 0.0
    case Str(s) => s != ""
    case Obj => true
  }

  /** The `typeof` operator: "string" exactly for strings, and "object" for `null` as for objects. */
  function TypeOf(v: JsValue): (r: string)
    ensures r == "string" <==> v.Str?
    ensures r == "object" <==> v.Null? || v.Obj?
  {
    match v
    case Undefined => "undefined"
    case Null => "object"
    case Bool(_) => "boolean"
    case Num(_) => "number"
    case Str(_) => "string"
    case Obj => "object"
  }

  /** `Array.prototype.join`: the parts with `sep` between each pair. */
  function Join(parts: seq<string>, sep: string): (r: string)
    ensures |parts| == 0 ==> r == []
    ensures |parts| == 1 ==> r == parts[0]
    decreases |parts|
  {
    if |parts| == 0 then []
    else if |parts| == 1 then parts[0]
    else parts[0] + sep + Join(parts[1..], sep)
  }

  /** Joining one more part appends the separator and that part. */
  lemma {:induction false} JoinAppend(parts: seq<string>, x: string, sep: string)
    requires parts != []
    ensures Join(parts + [x], sep) == Join(parts, sep) + sep + x
    decreases |parts|
  {
    if |parts| > 1 {
      assert (parts + [x])[1..] == parts[1..] + [x];
      JoinAppend(parts[1..], x, sep);
    }
  }

  /**
    The query text the list handler works on: a missing or otherwise falsy
    parameter becomes the empty string, and `String(...)` turns an array into
    its comma-joined parts and a plain object into "[object Object]". An
    object whose own `toString` key holds a string, not a function, has no
    usable conversion to a primitive, so `String(...)` throws (`None`).
   */
  function QueryText(q: QueryValue): (r: Option<string>)
    ensures r.None? <==> q == Nested(true)
    ensures q.Missing? || q == Many([]) ==> r == Some([])
    ensures q.Text? ==> r == Some(q.text)
    ensures q.Many? && |q.parts| == 1 ==> r == Some(q.parts[0])
    ensures q == Nested(false) ==> r == Some("[object Object]")
  {
    match q
    case Missing => Some([])
    case Text(t) => Some(t)
    case Many(parts) => Some(Join(parts, ","))
    case Nested(ownToString) => if ownToString then None else Some("[object Object]")
  }

  /**
    How `String(...)` treats arrays: an empty array gives the empty text, a
    one-element array the same text as its element alone, and each further
    element adds a comma and that element.
   */
  lemma QueryTextOfArrays(parts: seq<string>, x: string)
    ensures QueryText(Many([])) == Some([])
    ensures QueryText(Many([x])) == QueryText(Text(x))
    ensures parts != [] ==> QueryText(Many(parts + [x])) == Some(QueryText(Many(parts)).value + "," + x)
  {
    if parts != [] {
      JoinAppend(parts, x, ",");
    }
  }

  // ---------------------------------------------------------------- toLowerCase

  predicate IsAsciiUpper(c: char) {
    'A' <= c <= 'Z'
  }

  /** Lower-cases one character; only the ASCII letters A-Z are mapped. */
  function LowerChar(c: char): char {
    if IsAsciiUpper(c) then (c as int + 32) as char else c
  }

  /** `String.prototype.toLowerCase`, restricted to ASCII. */
  function ToLower(s: string): (r: string)
    ensures |r| == |s|
    ensures forall i :: 0 <= i < |s| ==> r[i] == LowerChar(s[i])
  {
    if s == [] then [] else [LowerChar(s[0])] + ToLower(s[1..])
  }

  lemma LowerCharFixesLowered(c: char)
    ensures LowerChar(LowerChar(c)) == LowerChar(c)
    ensures !IsAsciiUpper(LowerChar(c))
  {
  }

  /** Lower-casing twice is lower-casing once. */
  lemma ToLowerIdempotent(s: string)
    ensures ToLower(ToLower(s)) == ToLower(s)
  {
    var once := ToLower(s);
    var twice := ToLower(once);
    forall i | 0 <= i < |s|
      ensures twice[i] == once[i]
    {
      LowerCharFixesLowered(s[i]);
    }
  }

  // ---------------------------------------------------------------- trim

  /** ECMAScript WhiteSpace and LineTerminator code points, which `trim` removes. */
  const WhitespaceChars: set<char> := {
    '\t', '\n', '\U{000B}', '\U{000C}', '\r', ' ', '\U{00A0}', '\U{1680}',
    '\U{2000}', '\U{2001}', '\U{2002}', '\U{2003}', '\U{2004}', '\U{2005}',
    '\U{2006}', '\U{2007}', '\U{2008}', '\U{2009}', '\U{200A}',
    '\U{2028}', '\U{2029}', '\U{202F}', '\U{205F}', '\U{3000}', '\U{FEFF}'
  }

  predicate IsWhitespace(c: char) {
    c in WhitespaceChars
  }

  /** Every character of `s` from index `lo` up to, not including, `hi` is white space. */
  ghost predicate WhitespaceBetween(s: string, lo: int, hi: int) {
    forall i :: lo <= i < hi && 0 <= i < |s| ==> IsWhitespace(s[i])
  }

  ghost predicate AllWhitespace(s: string) {
    WhitespaceBetween(s, 0, |s|)
  }

  /** Lower-casing maps white space to white space and nothing else to it. */
  lemma LowerCharKeepsWhitespace(c: char)
    ensures IsWhitespace(LowerChar(c)) <==> IsWhitespace(c)
  {
  }

  /** The number of white-space characters at the start of `s`. */
  function LeadingWhitespace(s: string): (k: nat)
    ensures k <= |s|
    ensures WhitespaceBetween(s, 0, k)
    ensures k < |s| ==> !IsWhitespace(s[k])
  {
    if s != [] && IsWhitespace(s[0]) then 1 + LeadingWhitespace(s[1..]) else 0
  }

  /** The number of white-space characters at the end of `s`. */
  function TrailingWhitespace(s: string): (k: nat)
    ensures k <= |s|
    ensures WhitespaceBetween(s, |s| - k, |s|)
    ensures k < |s| ==> !IsWhitespace(s[|s| - 1 - k])
  {
    if s != [] && IsWhitespace(s[|s| - 1]) then 1 + TrailingWhitespace(s[..|s| - 1]) else 0
  }

  /** `r` sits in `s` at offset `i` with nothing but white space around it. */
  ghost predicate PaddedAt(s: string, r: string, i: int) {
    0 <= i && i + |r| <= |s| && s[i..i + |r|] == r
    && WhitespaceBetween(s, 0, i) && WhitespaceBetween(s, i + |r|, |s|)
  }

  /**
    `String.prototype.trim`: the result is `s` with white space removed on
    both sides, and neither starts nor ends with white space. These two facts
    determine the result (TrimUnique).
   */
  function Trim(s: string): (r: string)
    ensures r == [] || (!IsWhitespace(r[0]) && !IsWhitespace(r[|r| - 1]))
    ensures exists i :: PaddedAt(s, r, i)
  {
    var lead := LeadingWhitespace(s);
    var t := s[lead..];
    var trail := TrailingWhitespace(t);
    var r := t[..|t| - trail];
    assert s[lead..lead + |r|] == r;
    forall i | lead + |r| <= i < |s|
      ensures IsWhitespace(s[i])
    {
      assert s[i] == t[i - lead];
    }
    assert PaddedAt(s, r, lead);
    r
  }

  /** Any padding of `s` that leaves no white space at either end is the trimmed text. */
  lemma TrimUnique(s: string, r: string, i: int)
    requires PaddedAt(s, r, i)
    requires r == [] || (!IsWhitespace(r[0]) && !IsWhitespace(r[|r| - 1]))
    ensures r == Trim(s)
  {
  }

  /** A text made only of white space trims to the empty string. */
  lemma TrimBlank(s: string)
    requires AllWhitespace(s)
    ensures Trim(s) == []
  {
  }

  /** Trimming keeps only characters of its input, so a lower-cased text stays free of upper case. */
  lemma TrimmedLowerHasNoUpper(t: string)
    ensures forall k :: 0 <= k < |Trim(ToLower(t))| ==> !IsAsciiUpper(Trim(ToLower(t))[k])
  {
    var lowered := ToLower(t);
    var key := Trim(lowered);
    var i :| PaddedAt(lowered, key, i);
    forall k | 0 <= k < |key|
      ensures !IsAsciiUpper(key[k])
    {
      assert key[k] == lowered[i + k];
      LowerCharFixesLowered(t[i + k]);
    }
  }

  // ---------------------------------------------------------------- includes

  /** `needle` occurs in `hay` starting at index `i`. */
  ghost predicate OccursAt(hay: string, needle: string, i: int) {
    0 <= i && i + |needle| <= |hay| && hay[i..i + |needle|] == needle
  }

  /** `needle` occurs somewhere in `hay`. */
  ghost predicate Occurs(hay: string, needle: string) {
    exists i :: OccursAt(hay, needle, i)
  }

  /** An occurrence in `hay` is either at its start or an occurrence in its tail, shifted by one. */
  lemma OccursSomewhere(hay: string, needle: string)
    requires hay != []
    ensures (exists i :: OccursAt(hay, needle, i))
            <==> OccursAt(hay, needle, 0) || exists j :: OccursAt(hay[1..], needle, j)
  {
    if i :| OccursAt(hay, needle, i) && i != 0 {
      assert hay[1..][i - 1..i - 1 + |needle|] == hay[i..i + |needle|];
      assert OccursAt(hay[1..], needle, i - 1);
    }
    if j :| OccursAt(hay[1..], needle, j) {
      assert hay[1..][j..j + |needle|] == hay[j + 1..j + 1 + |needle|];
      assert OccursAt(hay, needle, j + 1);
    }
  }

  /** `String.prototype.includes`: true exactly when `needle` occurs somewhere in `hay`. */
  function Includes(hay: string, needle: string): (r: bool)
    ensures r <==> exists i :: OccursAt(hay, needle, i)
    decreases |hay|
  {
    if |needle| > |hay| then false
    else if hay[..|needle|] == needle then assert OccursAt(hay, needle, 0); true
    else
      OccursSomewhere(hay, needle);
      Includes(hay[1..], needle)
  }

  /** Every text includes the empty string. */
  lemma IncludesEmpty(hay: string)
    ensures Includes(hay, [])
  {
    assert OccursAt(hay, [], 0);
  }
}
