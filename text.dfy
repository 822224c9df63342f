/** String helpers with the meaning JavaScript gives them in app.js:
    `trim`, the regular-expression class `\s`, `toLowerCase` and `includes`. */
module Text {

  /** The ECMAScript WhiteSpace and LineTerminator characters; `String.prototype.trim`
      strips exactly these, and the regular-expression class `\s` matches exactly these. */
  predicate IsWhitespace(c: char) {
    c == '\t' || c == '\n' || c == '\U{000B}' || c == '\U{000C}' || c == '\r' || c == ' '
    || c == '\U{00A0}' || c == '\U{1680}' || ('\U{2000}' <= c <= '\U{200A}')
    || c == '\U{2028}' || c == '\U{2029}' || c == '\U{202F}' || c == '\U{205F}'
    || c == '\U{3000}' || c == '\U{FEFF}'
  }

  /** Among the ASCII characters, the white space is tab, line feed, vertical tab, form feed,
      carriage return and space. */
  lemma AsciiWhitespace(c: char)
    requires c as int < 128
    ensures IsWhitespace(c) <==> c in "\t\n\U{000B}\U{000C}\r "
  {
  }

  predicate AllWhitespace(s: string) {
    forall k :: 0 <= k < |s| ==> IsWhitespace(s[k])
  }

  /** Drops the leading white space: the result is a suffix of `s`, it does not start
      with white space. */
  function TrimStart(s: string): (r: string)
    ensures |r| <= |s| && r == s[|s| - |r|..]
    ensures r == [] || !IsWhitespace(r[0])
  {
    if s != [] && IsWhitespace(s[0]) then TrimStart(s[1..]) else s
  }

  /** Drops the trailing white space: the result is a prefix of `s`, it does not end
      with white space. */
  function TrimEnd(s: string): (r: string)
    ensures |r| <= |s| && r == s[..|r|]
    ensures r == [] || !IsWhitespace(r[|r| - 1])
  {
    if s != [] && IsWhitespace(s[|s| - 1]) then TrimEnd(s[..|s| - 1]) else s
  }

  /** `String.prototype.trim`. */
  function Trim(s: string): (r: string)
    ensures |r| <= |s|
    ensures r == [] || (!IsWhitespace(r[0]) && !IsWhitespace(r[|r| - 1]))
  {
    TrimEnd(TrimStart(s))
  }

  /** Everything `TrimStart` drops is white space. */
  lemma {:induction false} TrimStartDropsWhitespace(s: string)
    ensures forall k :: 0 <= k < |s| - |TrimStart(s)| ==> IsWhitespace(s[k])
  {
    if s != [] && IsWhitespace(s[0]) {
      TrimStartDropsWhitespace(s[1..]);
      assert forall k :: 1 <= k < |s| ==> s[k] == s[1..][k - 1];
    }
  }

  /** Everything `TrimEnd` drops is white space. */
  lemma {:induction false} TrimEndDropsWhitespace(s: string)
    ensures forall k :: |TrimEnd(s)| <= k < |s| ==> IsWhitespace(s[k])
  {
    if s != [] && IsWhitespace(s[|s| - 1]) {
      TrimEndDropsWhitespace(s[..|s| - 1]);
      assert forall k :: 0 <= k < |s| - 1 ==> s[k] == s[..|s| - 1][k];
    }
  }

  /** A trimmed value is empty exactly when the raw value held nothing but white space:
      this is the `!value` test of the validator. */
  lemma TrimEmptyIff(s: string)
    ensures Trim(s) == [] <==> AllWhitespace(s)
  {
    var t := TrimStart(s);
    TrimStartDropsWhitespace(s);
    TrimEndDropsWhitespace(t);
    if Trim(s) == [] {
      assert t == [];
    } else {
      assert s[|s| - |t|] == t[0];
    }
  }

  /** The part `TrimStart` drops is all white space. */
  lemma TrimStartDropped(s: string)
    ensures AllWhitespace(s[..|s| - |TrimStart(s)|])
  {
    TrimStartDropsWhitespace(s);
  }

  /** The part `TrimEnd` drops is all white space. */
  lemma TrimEndDropped(s: string)
    ensures AllWhitespace(s[|TrimEnd(s)|..])
  {
    TrimEndDropsWhitespace(s);
    forall k | 0 <= k < |s| - |TrimEnd(s)| ensures IsWhitespace(s[|TrimEnd(s)|..][k]) {
      assert s[|TrimEnd(s)|..][k] == s[|TrimEnd(s)| + k];
    }
  }

  /** `trim` removes exactly the leading and the trailing white space: the result is the
      slice `s[a..b]`, and everything before `a` and from `b` on is white space. */
  lemma TrimMiddle(s: string) returns (a: nat, b: nat)
    ensures a <= b <= |s| && Trim(s) == s[a..b]
    ensures AllWhitespace(s[..a]) && AllWhitespace(s[b..])
  {
    var t := TrimStart(s);
    var u := TrimEnd(t);
    a := |s| - |t|;
    b := a + |u|;
    TrimStartDropped(s);
    TrimEndDropped(t);
    PrefixOfSuffix(s, a, |u|);
  }

  /** Slices of a suffix are slices of the whole. */
  lemma PrefixOfSuffix(s: string, a: nat, n: nat)
    requires a + n <= |s|
    ensures s[a..][..n] == s[a..a + n] && s[a..][n..] == s[a + n..]
  {
  }


  /** A value that neither starts nor ends with white space is its own trimmed value. */
  lemma TrimKeeps(s: string)
    requires s == [] || (!IsWhitespace(s[0]) && !IsWhitespace(s[|s| - 1]))
    ensures Trim(s) == s
  {
    assert TrimStart(s) == s;
    assert TrimEnd(s) == s;
  }

  predicate IsUpper(c: char) {
    'A' <= c <= 'Z'
  }

  /** ASCII upper-case letters become lower-case; every other character is kept. */
  function LowerChar(c: char): char {
    if IsUpper(c) then (c as int + 32) as char else c
  }

  /** `String.prototype.toLowerCase`, restricted to ASCII letters: no upper-case letter is
      left, and every other character is kept where it was (`LowerLetters` says what each
      upper-case letter becomes). */
  function Lower(s: string): (r: string)
    ensures |r| == |s|
    ensures forall k :: 0 <= k < |r| ==> !IsUpper(r[k])
    ensures forall k :: 0 <= k < |s| && !IsUpper(s[k]) ==> r[k] == s[k]
  {
    seq(|s|, k requires 0 <= k < |s| => LowerChar(s[k]))
  }

  /** Each of `A`-`Z` becomes the letter at the same place in `a`-`z`. */
  lemma LowerLetters(s: string)
    ensures forall k :: 0 <= k < |s| && IsUpper(s[k]) ==>
      Lower(s)[k] == "abcdefghijklmnopqrstuvwxyz"[s[k] as int - 'A' as int]
  {
  }

  /** Lower-casing a lower-cased string changes nothing. */
  lemma LowerIdempotent(s: string)
    ensures Lower(Lower(s)) == Lower(s)
  {
  }

  /** `haystack.includes(needle)`: `needle` is a prefix of `haystack` or of one of its
      suffixes. A prefix is found, and nothing longer than the haystack is. */
  function Contains(haystack: string, needle: string): (r: bool)
    ensures needle <= haystack ==> r
    ensures r ==> |needle| <= |haystack|
    decreases |haystack|
  {
    needle <= haystack || (haystack != [] && Contains(haystack[1..], needle))
  }

  /** `needle` occurs in `haystack` starting at offset `i`. */
  predicate OccursAt(haystack: string, needle: string, i: nat) {
    i + |needle| <= |haystack| && haystack[i..i + |needle|] == needle
  }

  /** An occurrence at any offset makes `Contains` true. */
  lemma {:induction false} OccursContains(haystack: string, needle: string, i: nat)
    requires OccursAt(haystack, needle, i)
    ensures Contains(haystack, needle)
    decreases i
  {
    if i == 0 {
      assert needle <= haystack;
    } else {
      assert haystack[1..][i - 1..i - 1 + |needle|] == haystack[i..i + |needle|];
      OccursContains(haystack[1..], needle, i - 1);
    }
  }

  /** `Contains` is witnessed by an occurrence at some offset. */
  lemma {:induction false} ContainsOccurs(haystack: string, needle: string) returns (i: nat)
    requires Contains(haystack, needle)
    ensures OccursAt(haystack, needle, i)
    decreases |haystack|
  {
    if needle <= haystack {
      i := 0;
    } else {
      var j := ContainsOccurs(haystack[1..], needle);
      assert haystack[1..][j..j + |needle|] == haystack[j + 1..j + 1 + |needle|];
      i := j + 1;
    }
  }

  /** `Contains` holds exactly when `needle` occurs in `haystack` at some offset. */
  lemma ContainsIff(haystack: string, needle: string)
    ensures Contains(haystack, needle) <==> exists i: nat :: OccursAt(haystack, needle, i)
  {
    if Contains(haystack, needle) {
      var i := ContainsOccurs(haystack, needle);
    }
    if i: nat :| OccursAt(haystack, needle, i) {
      OccursContains(haystack, needle, i);
    }
  }

  /** Whatever contains `middle` contains everything `middle` contains. */
  lemma ContainsTransitive(a: string, middle: string, c: string)
    requires Contains(a, middle) && Contains(middle, c)
    ensures Contains(a, c)
  {
    var i := ContainsOccurs(a, middle);
    var j := ContainsOccurs(middle, c);
    forall k | 0 <= k < |c| ensures a[i + j + k] == c[k] {
      assert a[i..i + |middle|][j + k] == middle[j + k];
      assert middle[j..j + |c|][k] == c[k];
    }
    assert a[i + j..i + j + |c|] == c;
    OccursContains(a, c, i + j);
  }

  /** The empty string occurs in every string. */
  lemma ContainsEmpty(haystack: string)
    ensures Contains(haystack, "")
  {
  }
}
