/**
  Character classes and the few string primitives of PHP that the compiler
  relies on: searching for a fixed string, runs of name characters,
  PHP's truthiness of strings, and `explode` on one character.
*/
module Text {
  import opened Wrappers

  /** The class `[a-zA-Z0-9_]` (`parser_trix::name_char`). */
  predicate IsNameChar(c: char) {
    ('a' <= c <= 'z') || ('A' <= c <= 'Z') || ('0' <= c <= '9') || c == '_'
  }

  /** Every character of `s` is a name character (`[a-zA-Z0-9_]*`). */
  predicate AllName(s: string) {
    forall i :: 0 <= i < |s| ==> IsNameChar(s[i])
  }

  /** `[a-zA-Z0-9_]+` */
  predicate IsName(s: string) {
    |s| > 0 && AllName(s)
  }

  /** A run of name characters contains no other character. */
  lemma NameExcludes(s: string, c: char)
    requires AllName(s) && !IsNameChar(c)
    ensures c !in s
  {
    forall i | 0 <= i < |s| ensures s[i] != c {
      assert IsNameChar(s[i]);
    }
  }

  /**
    `\s` as PCRE matches it under PHP's `u` flag (which also turns on
    Unicode properties): the separators of category Z together with the
    horizontal (`\h`) and vertical (`\v`) white space characters.
  */
  predicate IsSpace(c: char) {
    c == ' ' || c == '\t' || c == '\n' || c == '\U{000B}' || c == '\U{000C}' || c == '\r'
    || c == '\U{0085}' || c == '\U{00A0}' || c == '\U{1680}' || c == '\U{180E}' || ('\U{2000}' <= c <= '\U{200A}')
    || c == '\U{2028}' || c == '\U{2029}' || c == '\U{202F}' || c == '\U{205F}' || c == '\U{3000}'
  }

  /** PHP's boolean conversion of a string: only `""` and `"0"` are false. */
  predicate PhpTruthy(s: string) {
    s != "" && s != "0"
  }

  /** `pat` occurs in `s` starting at index `k`. */
  predicate OccursAt(s: string, pat: string, k: nat) {
    k + |pat| <= |s| && s[k..k + |pat|] == pat
  }

  /** An occurrence of `pat` is also one of each of its prefixes. */
  lemma OccursPrefix(s: string, pat: string, k: nat, n: nat)
    requires OccursAt(s, pat, k) && n <= |pat|
    ensures s[k..k + n] == pat[..n]
  {
    assert s[k..k + n] == s[k..k + |pat|][..n];
  }

  /** An occurrence of `pat` fixes each of the characters it covers. */
  lemma OccursChar(s: string, pat: string, k: nat, i: nat)
    requires OccursAt(s, pat, k) && i < |pat|
    ensures s[k + i] == pat[i]
  {
    assert s[k..k + |pat|][i] == s[k + i];
  }

  /** A slice of a slice is a slice of the whole string. */
  lemma SliceOfSlice(t: string, lo: nat, hi: nat, a: nat, b: nat)
    requires lo <= hi <= |t| && a <= b <= hi - lo
    ensures t[lo..hi][a..b] == t[lo + a..lo + b]
  {
    var y, z := t[lo..hi][a..b], t[lo + a..lo + b];
    forall i | 0 <= i < |y| ensures y[i] == z[i] {
      assert y[i] == t[lo + a + i];
    }
  }

  /** An occurrence inside a slice is an occurrence in the whole string, shifted. */
  lemma OccursIn(t: string, lo: nat, hi: nat, pat: string, j: nat)
    requires lo <= hi <= |t| && j + |pat| <= hi - lo
    ensures OccursAt(t[lo..hi], pat, j) == OccursAt(t, pat, lo + j)
  {
    SliceOfSlice(t, lo, hi, j, j + |pat|);
  }

  /** A one-character pattern occurs exactly where that character is. */
  lemma OccursOne(t: string, c: char, i: nat)
    requires i < |t|
    ensures OccursAt(t, [c], i) == (t[i] == c)
  {
    assert t[i..i + 1] == [t[i]];
  }

  /** A slice is the slice one shorter followed by its last character. */
  lemma SliceSnoc(t: string, lo: nat, hi: nat)
    requires lo < hi <= |t|
    ensures t[lo..hi] == t[lo..hi - 1] + [t[hi - 1]]
  {
  }

  /** A prefix that starts with `{` and ends with `}` is the braces around what lies between. */
  lemma Framed(t: string, e: nat)
    requires 2 <= e <= |t| && t[0] == '{' && t[e - 1] == '}'
    ensures t[..e] == "{" + t[1..e - 1] + "}"
  {
    SliceSnoc(t, 0, e);
    assert t[0..e - 1] == [t[0]] + t[1..e - 1];
  }

  /** The first occurrence of `pat` in `s` at or after `from` (what a lazy `.*?pat` finds). */
  function FindFrom(s: string, pat: string, from: nat): (r: Option<nat>)
    requires |pat| > 0
    ensures r.Some? ==> from <= r.value && OccursAt(s, pat, r.value)
    ensures r.Some? ==> forall j :: from <= j < r.value ==> !OccursAt(s, pat, j)
    ensures r.None? ==> forall j :: from <= j ==> !OccursAt(s, pat, j)
    decreases |s| - from
  {
    if from + |pat| > |s| then None
    else if s[from..from + |pat|] == pat then Some(from)
    else FindFrom(s, pat, from + 1)
  }

  /** The longest run of name characters at the front of `s` (a greedy `[a-zA-Z0-9_]*`), and what follows it. */
  function NameRun(s: string): (r: (string, string))
    ensures r.0 + r.1 == s && AllName(r.0)
    ensures r.1 == [] || !IsNameChar(r.1[0])
    ensures s != [] && IsNameChar(s[0]) ==> r.0 != []
    decreases |s|
  {
    if s != [] && IsNameChar(s[0]) then
      var (n, rest) := NameRun(s[1..]);
      Assoc([s[0]], n, rest);
      ([s[0]] + n, rest)
    else ("", s)
  }

  /** A run of name characters followed by anything else is read off exactly. */
  lemma {:induction false} NameRunOf(name: string, w: string)
    requires AllName(name) && (w == [] || !IsNameChar(w[0]))
    ensures NameRun(name + w) == (name, w)
    decreases |name|
  {
    if name == [] {
      assert name + w == w;
    } else {
      assert (name + w)[1..] == name[1..] + w;
      assert (name + w)[0] == name[0];
      NameRunOf(name[1..], w);
      assert [name[0]] + name[1..] == name;
    }
  }

  /** PHP's `explode(c, s)`: the pieces of `s` between occurrences of `c`; never empty. */
  function Explode(s: string, c: char): (r: seq<string>)
    ensures |r| > 0
    decreases |s|
  {
    if c !in s then [s]
    else
      var k := IndexOf(s, c);
      [s[..k]] + Explode(s[k + 1..], c)
  }

  /** The first index of `c` in `s`. */
  function IndexOf(s: string, c: char): (k: nat)
    requires c in s
    ensures k < |s| && s[k] == c && c !in s[..k]
  {
    if s[0] == c then 0
    else
      assert c in s[1..] by {
        var i :| 0 <= i < |s| && s[i] == c;
        assert s[1..][i - 1] == c;
      }
      var k := 1 + IndexOf(s[1..], c);
      assert s[..k] == [s[0]] + s[1..][..k - 1];
      k
  }

  /** The elements of `ps` that are not the empty string, in order. */
  function NonEmpty(ps: seq<string>): (r: seq<string>)
    ensures forall i :: 0 <= i < |r| ==> r[i] != ""
  {
    if ps == [] then []
    else (if ps[0] == "" then [] else [ps[0]]) + NonEmpty(ps[1..])
  }

  lemma {:induction false} NonEmptyAppend(a: seq<string>, b: seq<string>)
    ensures NonEmpty(a + b) == NonEmpty(a) + NonEmpty(b)
  {
    if a == [] {
      assert a + b == b;
    } else {
      assert (a + b)[1..] == a[1..] + b;
      NonEmptyAppend(a[1..], b);
    }
  }

  lemma Assoc(a: string, b: string, c: string)
    ensures a + b + c == a + (b + c)
  {
  }

  lemma Reassoc4(a: string, b: string, c: string, d: string)
    ensures a + b + c + d == a + (b + (c + d))
  {
  }

  lemma Reassoc5(a: string, b: string, c: string, d: string, e: string)
    ensures a + b + c + d + e == a + (b + (c + d + e))
  {
  }

  lemma Reassoc7(a: string, b: string, c: string, d: string, e: string, f: string, g: string)
    ensures a + b + c + d + e + f + g == a + (b + (c + (d + (e + f + g))))
  {
  }

  /** A non-empty string is its first character followed by the rest. */
  lemma Uncons(v: string)
    requires v != []
    ensures v == [v[0]] + v[1..]
  {
  }

  /** A one-character string followed by `x`: its head and its rest. */
  lemma ConsTail(c: string, x: string)
    requires |c| == 1
    ensures (c + x)[0] == c[0] && (c + x)[1..] == x
  {
  }

  lemma Uncons2(v: string)
    requires |v| >= 2
    ensures v == [v[0], v[1]] + v[2..]
  {
  }

  lemma NotInConcat(a: string, b: string, c: char)
    requires c !in a && c !in b
    ensures c !in a + b
  {
  }

  /** `explode` on a string that starts with a piece free of `c`, followed by `c`. */
  lemma ExplodeCons(p: string, c: char, rest: string)
    requires c !in p
    ensures Explode(p + [c] + rest, c) == [p] + Explode(rest, c)
  {
    var s := p + [c] + rest;
    assert s[|p|] == c;
    var k := IndexOf(s, c);
    assert k >= |p| by {
      assert forall i :: 0 <= i < |p| ==> s[i] == p[i];
    }
    assert s[..k] == p;
    assert s[k + 1..] == rest;
  }

  /** `explode` of a string free of `c` is the string itself. */
  lemma ExplodeNone(p: string, c: char)
    requires c !in p
    ensures Explode(p, c) == [p]
  {
  }
}
