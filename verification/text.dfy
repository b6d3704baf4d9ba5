/** String helpers shared by the server and the client: ASCII case folding,
    substring containment, JavaScript's `trim()` and `Array.prototype.join`. */
module Text {
  import opened Wrappers

  /** A string-or-null value that Python's `if x:` and JavaScript's `x ? … : …`
      both treat as true: present and non-empty. */
  predicate IsTruthy(s: Option<string>) {
    s.Some? && s.value != ""
  }

  /** SQLite's built-in `lower()` folds only the ASCII letters. */
  function LowerChar(c: char): (r: char)
    ensures 'A' <= c <= 'Z' ==> 'a' <= r <= 'z'
    ensures !('A' <= c <= 'Z') ==> r == c
  {
    if 'A' <= c <= 'Z' then (c as int - 'A' as int + 'a' as int) as char else c
  }

  function Lower(s: string): (r: string)
    ensures |r| == |s|
    ensures forall i :: 0 <= i < |s| ==> r[i] == LowerChar(s[i])
  {
    seq(|s|, i requires 0 <= i < |s| => LowerChar(s[i]))
  }

  /** `pat` occurs in `s` starting at position `i`. */
  predicate OccursAt(pat: string, s: string, i: nat) {
    i + |pat| <= |s| && s[i..i + |pat|] == pat
  }

  predicate Contains(s: string, pat: string) {
    exists i: nat :: i <= |s| && OccursAt(pat, s, i)
  }

  /** The characters `String.prototype.trim` removes: ECMAScript WhiteSpace
      and LineTerminator code points. */
  predicate IsWhitespace(c: char) {
    || c == '\t' || c == '\n' || c == '\U{000B}' || c == '\U{000C}' || c == '\r'
    || c == ' ' || c == '\U{00A0}' || c == '\U{1680}' || '\U{2000}' <= c <= '\U{200A}'
    || c == '\U{2028}' || c == '\U{2029}' || c == '\U{202F}' || c == '\U{205F}'
    || c == '\U{3000}' || c == '\U{FEFF}'
  }

  /** `s` without its leading whitespace: a suffix of `s` that does not start
      with whitespace, and everything dropped was whitespace. */
  function TrimStart(s: string): (r: string)
    ensures |r| <= |s| && r == s[|s| - |r|..]
    ensures forall i :: 0 <= i < |s| - |r| ==> IsWhitespace(s[i])
    ensures |r| > 0 ==> !IsWhitespace(r[0])
  {
    if |s| > 0 && IsWhitespace(s[0]) then TrimStart(s[1..]) else s
  }

  /** `s` without its trailing whitespace: a prefix of `s` that does not end
      with whitespace, and everything dropped was whitespace. */
  function TrimEnd(s: string): (r: string)
    ensures |r| <= |s| && r == s[..|r|]
    ensures forall i :: |r| <= i < |s| ==> IsWhitespace(s[i])
    ensures |r| > 0 ==> !IsWhitespace(r[|r| - 1])
  {
    if |s| > 0 && IsWhitespace(s[|s| - 1]) then TrimEnd(s[..|s| - 1]) else s
  }

  /** `r` is the slice `s[a..b]`, and everything of `s` outside it is
      whitespace. */
  predicate IsTrimmedSlice(s: string, r: string, a: int, b: int) {
    && 0 <= a <= b <= |s| && r == s[a..b]
    && (forall i :: 0 <= i < a ==> IsWhitespace(s[i]))
    && (forall i :: b <= i < |s| ==> IsWhitespace(s[i]))
  }

  /** Where the trimmed slice sits in `s`. */
  lemma TrimBounds(s: string)
    ensures var t := TrimStart(s);
      IsTrimmedSlice(s, TrimEnd(t), |s| - |t|, |s| - |t| + |TrimEnd(t)|)
  {
    var t := TrimStart(s);
    var r := TrimEnd(t);
    var a := |s| - |t|;
    assert t == s[a..];
    assert r == t[..|r|];
    assert r == s[a..a + |r|];
    forall i | a + |r| <= i < |s|
      ensures IsWhitespace(s[i])
    {
      assert s[i] == t[i - a];
    }
  }

  /** JavaScript's `s.trim()`: the slice of `s` left after dropping its
      leading and trailing whitespace. */
  function Trim(s: string): (r: string)
    ensures exists a, b :: IsTrimmedSlice(s, r, a, b)
    ensures |r| > 0 ==> !IsWhitespace(r[0]) && !IsWhitespace(r[|r| - 1])
  {
    TrimBounds(s);
    TrimEnd(TrimStart(s))
  }

  /** `trim()` leaves nothing exactly when every character is whitespace. */
  lemma TrimEmptyIff(s: string)
    ensures Trim(s) == "" <==> forall i :: 0 <= i < |s| ==> IsWhitespace(s[i])
  {
    var t := TrimStart(s);
    if Trim(s) == "" {
      assert |t| == 0;
    } else {
      var r := Trim(s);
      var a, b :| IsTrimmedSlice(s, r, a, b);
      assert r[0] == s[a];
    }
  }

  /** JavaScript's `parts.join(sep)`. */
  function Join(parts: seq<string>, sep: string): string
  {
    if |parts| == 0 then ""
    else if |parts| == 1 then parts[0]
    else parts[0] + sep + Join(parts[1..], sep)
  }

  /** The first position of `c` in `s`. */
  function IndexOf(s: string, c: char): (i: nat)
    requires c in s
    ensures i < |s| && s[i] == c && c !in s[..i]
  {
    if s[0] == c then 0 else 1 + IndexOf(s[1..], c)
  }

  /** Reads back a list displayed with `Join(_, ", ")`: cuts at every comma and
      drops the single space that follows it. */
  function SplitList(s: string): (parts: seq<string>)
    decreases |s|
  {
    if ',' !in s then [s]
    else
      var i := IndexOf(s, ',');
      var rest := if i + 1 < |s| && s[i + 1] == ' ' then s[i + 2..] else s[i + 1..];
      [s[..i]] + SplitList(rest)
  }

  /** `c` first occurs in `x + [c] + t` right after `x` when `x` lacks it. */
  lemma IndexOfAfter(x: string, c: char, t: string)
    requires c !in x
    ensures IndexOf(x + [c] + t, c) == |x|
  {
    var s := x + [c] + t;
    assert s[|x|] == c && s[..|x|] == x;
    if |x| > 0 {
      assert s[1..] == x[1..] + [c] + t;
      IndexOfAfter(x[1..], c, t);
    }
  }

  /** The display join loses nothing when no name holds a comma: splitting the
      joined text gives the names back. */
  lemma {:induction false} SplitJoin(parts: seq<string>)
    requires |parts| > 0
    requires forall k :: 0 <= k < |parts| ==> ',' !in parts[k]
    ensures SplitList(Join(parts, ", ")) == parts
  {
    if |parts| > 1 {
      var x := parts[0];
      var tail := Join(parts[1..], ", ");
      var s := x + [','] + (" " + tail);
      assert Join(parts, ", ") == s;
      IndexOfAfter(x, ',', " " + tail);
      assert s[..|x|] == x && s[|x| + 1] == ' ';
      assert s[|x| + 2..] == tail;
      SplitJoin(parts[1..]);
      assert parts == [x] + parts[1..];
    }
  }

  /** What the model needs of `encodeURIComponent` (`encode`) and of the
      matching decoder (`decode`): decoding undoes encoding, an encoded string
      holds none of `/`, `\`, `?` and `#`, and only the empty string encodes
      to the empty string. */
  ghost predicate UriCodec(encode: string -> string, decode: string -> string) {
    && (forall s :: decode(encode(s)) == s)
    && (forall s :: '/' !in encode(s))
    && (forall s :: '\\' !in encode(s) && '?' !in encode(s) && '#' !in encode(s))
    && (forall s :: s != "" ==> encode(s) != "")
  }
}
