/**
  The tokenizer (`parser_trix::parse`): one `preg_split` with the pattern
  `\{(\*?|\*.*?\*|literal\}.*?\{\/literal|[^\*][^\}]*)\}` and its capture
  group kept, so the result alternates text, body, text, ..., text.
  Here it is a scanner that tries the four alternatives of the group, in
  order, at every `{`.
*/
module Tokenizer {
  import opened Wrappers
  import opened Text

  /** A comment body `*...*`, ended by the first `*}` after its opening star. */
  predicate IsCommentBody(b: string) {
    && |b| >= 2 && b[0] == '*' && b[|b| - 1] == '*' && b[1] != '}'
    && forall k :: 1 <= k < |b| - 1 ==> !OccursAt(b + "}", "*}", k)
  }

  /** A literal body `literal}...{/literal`, ended by the first `{/literal}`. */
  predicate IsLiteralBody(b: string) {
    && |b| >= 17 && b[..8] == "literal}" && b[|b| - 9..] == "{/literal"
    && forall k :: 8 <= k < |b| - 9 ==> !OccursAt(b + "}", "{/literal}", k)
  }

  /** Any other body: a first character other than `*`, then everything up to the first `}`. */
  predicate IsPlainBody(b: string) {
    |b| > 0 && b[0] != '*' && b[0] != '}' && '}' !in b[1..]
  }

  /** The bodies the capture group can produce. */
  predicate IsBody(b: string) {
    b == "" || b == "*" || IsCommentBody(b) || IsLiteralBody(b) || IsPlainBody(b)
  }

  /** What the first `*}` at index `k` after `{*` ends: the braces around a comment body. */
  lemma CommentEnd(t: string, k: nat)
    requires |t| >= 3 && t[0] == '{' && t[1] == '*' && t[2] != '}'
    requires k >= 2 && OccursAt(t, "*}", k)
    requires forall j :: 2 <= j < k ==> !OccursAt(t, "*}", j)
    ensures t[..k + 2] == "{" + t[1..k + 1] + "}" && IsCommentBody(t[1..k + 1])
  {
    var b := t[1..k + 1];
    OccursChar(t, "*}", k, 0);
    OccursChar(t, "*}", k, 1);
    Framed(t, k + 2);
    SliceSnoc(t, 1, k + 2);
    assert b[0] == t[1] && b[1] == t[2] && b[|b| - 1] == t[k];
    var u := b + "}";
    forall j | 1 <= j < |b| - 1
      ensures !OccursAt(u, "*}", j)
    {
      OccursIn(t, 1, k + 2, "*}", j);
    }
  }

  /** Alternative `\*.*?\*` of the group on a `{*` that is not `{*}`: up to the first later `*}`. */
  function CommentAt(t: string): (r: Option<string>)
    requires |t| >= 2 && t[0] == '{' && t[1] == '*' && !(|t| >= 3 && t[2] == '}')
    ensures r.Some? ==> |r.value| + 2 <= |t| && t[..|r.value| + 2] == "{" + r.value + "}"
    ensures r.Some? ==> IsCommentBody(r.value)
  {
    match FindFrom(t, "*}", 2)
    case Some(k) =>
      CommentEnd(t, k);
      Some(t[1..k + 1])
    case None => None
  }

  /** No `{/literal}` inside a literal body that the whole text does not have. */
  lemma LiteralNoEarlierEnd(t: string, k: nat, u: string)
    requires k >= 9 && k + 10 <= |t| && u == t[1..k + 10]
    requires forall j :: 9 <= j < k ==> !OccursAt(t, "{/literal}", j)
    ensures forall j :: 8 <= j < k - 1 ==> !OccursAt(u, "{/literal}", j)
  {
    forall j | 8 <= j < k - 1
      ensures !OccursAt(u, "{/literal}", j)
    {
      OccursIn(t, 1, k + 10, "{/literal}", j);
    }
  }

  /** The closing `{/literal` of a literal body. */
  lemma LiteralClose(t: string, k: nat)
    requires k >= 9 && OccursAt(t, "{/literal}", k)
    ensures t[1..k + 9][k - 1..] == "{/literal"
  {
    OccursPrefix(t, "{/literal}", k, 9);
    assert "{/literal}"[..9] == "{/literal";
    assert t[1..k + 9][k - 1..] == t[k..k + 9];
  }

  /** What the first `{/literal}` at index `k` after `{literal}` ends: the braces around a literal body. */
  lemma LiteralEnd(t: string, k: nat)
    requires |t| >= 9 && t[0] == '{' && t[1..9] == "literal}"
    requires k >= 9 && OccursAt(t, "{/literal}", k)
    requires forall j :: 9 <= j < k ==> !OccursAt(t, "{/literal}", j)
    ensures t[..k + 10] == "{" + t[1..k + 9] + "}" && IsLiteralBody(t[1..k + 9])
  {
    var b := t[1..k + 9];
    OccursChar(t, "{/literal}", k, 9);
    Framed(t, k + 10);
    SliceSnoc(t, 1, k + 10);
    assert b[..8] == t[1..9];
    LiteralClose(t, k);
    assert b + "}" == t[1..k + 10];
    LiteralNoEarlierEnd(t, k, b + "}");
  }

  /** Alternative `literal\}.*?\{\/literal` of the group: up to the first later `{/literal}`. */
  function LiteralAt(t: string): (r: Option<string>)
    requires |t| >= 9 && t[0] == '{' && t[1..9] == "literal}"
    ensures r.Some? ==> |r.value| + 2 <= |t| && t[..|r.value| + 2] == "{" + r.value + "}"
    ensures r.Some? ==> IsLiteralBody(r.value)
  {
    match FindFrom(t, "{/literal}", 9)
    case Some(k) =>
      LiteralEnd(t, k);
      Some(t[1..k + 9])
    case None => None
  }

  /** What the first `}` at index `k` after `{` and one more character ends: the braces around a plain body. */
  lemma PlainEnd(t: string, k: nat)
    requires |t| >= 2 && t[0] == '{' && t[1] != '*' && t[1] != '}'
    requires k >= 2 && OccursAt(t, "}", k)
    requires forall j :: 2 <= j < k ==> !OccursAt(t, "}", j)
    ensures t[..k + 1] == "{" + t[1..k] + "}" && IsPlainBody(t[1..k])
  {
    var b := t[1..k];
    OccursChar(t, "}", k, 0);
    Framed(t, k + 1);
    forall j | 0 <= j < |b[1..]|
      ensures b[1..][j] != '}'
    {
      OccursOne(t, '}', j + 2);
      assert b[1..][j] == t[j + 2];
    }
  }

  /** Alternative `[^\*][^\}]*` of the group: up to the first `}` after the next character. */
  function PlainAt(t: string): (r: Option<string>)
    requires |t| >= 2 && t[0] == '{' && t[1] != '*' && t[1] != '}'
    ensures r.Some? ==> |r.value| + 2 <= |t| && t[..|r.value| + 2] == "{" + r.value + "}"
    ensures r.Some? ==> IsPlainBody(r.value)
  {
    match FindFrom(t, "}", 2)
    case Some(k) =>
      PlainEnd(t, k);
      Some(t[1..k])
    case None => None
  }

  /**
    The body of the tag that the pattern matches at the `{` that starts
    `t`, if it matches there: the four alternatives of the group, in order.
  */
  function TagBody(t: string): (r: Option<string>)
    requires |t| > 0 && t[0] == '{'
    ensures r.Some? ==> |r.value| + 2 <= |t| && t[..|r.value| + 2] == "{" + r.value + "}"
    ensures r.Some? ==> IsBody(r.value)
  {
    if |t| < 2 then None
    else if t[1] == '}' then
      assert t[..2] == "{" + "" + "}";
      Some("")
    else if t[1] == '*' then
      if |t| >= 3 && t[2] == '}' then
        assert t[..3] == "{" + "*" + "}";
        Some("*")
      else CommentAt(t)
    else if |t| >= 9 && t[1..9] == "literal}" && LiteralAt(t).Some? then LiteralAt(t)
    else PlainAt(t)
  }

  /** The scan from position `s` on, with `text` the ordinary text gathered since the last tag. */
  function Scan(s: string, text: string): (r: seq<string>)
    ensures |r| % 2 == 1
    ensures forall i :: 0 <= i < |r| && i % 2 == 1 ==> IsBody(r[i])
    decreases |s|
  {
    if s == [] then [text]
    else if s[0] == '{' && TagBody(s).Some? then
      var b := TagBody(s).value;
      var tail := Scan(s[|b| + 2..], "");
      assert forall i :: 2 <= i < |tail| + 2 ==> ([text, b] + tail)[i] == tail[i - 2];
      [text, b] + tail
    else Scan(s[1..], text + [s[0]])
  }

  /** `parse` */
  function Parse(code: string): (parts: seq<string>)
    ensures |parts| % 2 == 1
    ensures forall i :: 0 <= i < |parts| && i % 2 == 1 ==> IsBody(parts[i])
  {
    Scan(code, "")
  }

  /** Puts a split template back together: `p0 + "{" + p1 + "}" + p2 + ...`. */
  function Join(parts: seq<string>): string
    requires |parts| % 2 == 1
    decreases |parts|
  {
    if |parts| == 1 then parts[0]
    else parts[0] + "{" + parts[1] + "}" + Join(parts[2..])
  }

  /** `Scan` at a tag: the pending text, the body, then the scan after the tag. */
  lemma ScanTagStep(s: string, text: string)
    requires s != [] && s[0] == '{' && TagBody(s).Some?
    ensures Scan(s, text) == [text, TagBody(s).value] + Scan(s[|TagBody(s).value| + 2..], "")
  {
  }

  /** `Scan` at any other character: it joins the pending text. */
  lemma ScanCharStep(s: string, text: string)
    requires s != [] && !(s[0] == '{' && TagBody(s).Some?)
    ensures Scan(s, text) == Scan(s[1..], text + [s[0]])
  {
  }

  lemma {:induction false} ScanJoin(s: string, text: string)
    ensures Join(Scan(s, text)) == text + s
    decreases |s|
  {
    if s == [] {
      assert text + s == text;
    } else if s[0] == '{' && TagBody(s).Some? {
      var b := TagBody(s).value;
      var rest := s[|b| + 2..];
      ScanJoin(rest, "");
      ScanTagStep(s, text);
      JoinTag(text, b, Scan(rest, ""), rest, s);
    } else {
      ScanJoin(s[1..], text + [s[0]]);
      ScanCharStep(s, text);
      Uncons(s);
      Assoc(text, [s[0]], s[1..]);
    }
  }

  lemma JoinTag(text: string, b: string, tail: seq<string>, rest: string, s: string)
    requires |tail| % 2 == 1 && Join(tail) == rest
    requires |b| + 2 <= |s| && s[..|b| + 2] == "{" + b + "}" && rest == s[|b| + 2..]
    ensures Join([text, b] + tail) == text + s
  {
    assert ([text, b] + tail)[2..] == tail;
    assert s == "{" + b + "}" + rest by {
      assert s == s[..|b| + 2] + s[|b| + 2..];
    }
  }

  /** Splitting and joining gives back the template text exactly. */
  lemma ParseRoundTrip(code: string)
    ensures Join(Parse(code)) == code
  {
    ScanJoin(code, "");
  }

  /** Text without `{` is carried into the pending text unchanged. */
  lemma {:induction false} ScanPlainText(p: string, u: string, text: string)
    requires '{' !in p
    ensures Scan(p + u, text) == Scan(u, text + p)
    decreases |p|
  {
    if p != [] {
      var s := p + u;
      assert s[0] == p[0];
      assert s[1..] == p[1..] + u;
      assert '{' !in p[1..] by {
        forall j | 0 <= j < |p[1..]| ensures p[1..][j] != '{' { assert p[1..][j] == p[j + 1]; }
      }
      ScanPlainText(p[1..], u, text + [p[0]]);
      assert text + [p[0]] + p[1..] == text + p;
    } else {
      assert p + u == u;
      assert text + p == text;
    }
  }

  /** A template without `{` is one text part. */
  lemma ParseNoBrace(code: string)
    requires '{' !in code
    ensures Parse(code) == [code]
  {
    ScanPlainText(code, "", "");
    assert code + "" == code;
    assert "" + code == code;
  }

  /**
    Every body form is recognised as itself whatever follows it, except
    `literal`, which a later `{/literal}` would extend.
  */
  lemma TagBodyOf(b: string, rest: string)
    requires IsBody(b) && b != "literal"
    ensures TagBody("{" + b + "}" + rest) == Some(b)
  {
    if b == "" || b == "*" {
      var t := "{" + b + "}" + rest;
      assert t[1] == '}' || (t[1] == '*' && t[2] == '}');
    } else if IsCommentBody(b) {
      CommentTagBody(b, rest);
    } else if IsLiteralBody(b) {
      LiteralTagBody(b, rest);
    } else {
      PlainTagBody(b, rest);
    }
  }

  lemma CommentTagBody(b: string, rest: string)
    requires IsCommentBody(b)
    ensures TagBody("{" + b + "}" + rest) == Some(b)
  {
    var t := "{" + b + "}" + rest;
    assert b + "}" == t[1..|b| + 2];
    assert t[1] == '*' && t[2] == b[1];
    assert OccursAt(t, "*}", |b|) by { assert t[|b|..|b| + 2] == "*}"; }
    forall j | 2 <= j < |b|
      ensures !OccursAt(t, "*}", j)
    {
      assert !OccursAt(b + "}", "*}", j - 1);
      assert (b + "}")[j - 1..j + 1] == t[j..j + 2];
    }
    var f := FindFrom(t, "*}", 2);
    assert f == Some(|b|);
    assert t[1..|b| + 1] == b;
  }

  lemma LiteralTagBody(b: string, rest: string)
    requires IsLiteralBody(b)
    ensures TagBody("{" + b + "}" + rest) == Some(b)
  {
    var t := "{" + b + "}" + rest;
    assert b + "}" == t[1..|b| + 2];
    assert t[1..9] == "literal}" by { assert t[1..9] == b[..8]; }
    assert OccursAt(t, "{/literal}", |b| - 8) by {
      assert t[|b| - 8..|b| + 2] == (b + "}")[|b| - 9..];
      assert (b + "}")[|b| - 9..] == b[|b| - 9..] + "}";
    }
    forall j | 9 <= j < |b| - 8
      ensures !OccursAt(t, "{/literal}", j)
    {
      assert !OccursAt(b + "}", "{/literal}", j - 1);
      assert (b + "}")[j - 1..j + 9] == t[j..j + 10];
    }
    var f := FindFrom(t, "{/literal}", 9);
    assert f == Some(|b| - 8);
    assert t[1..|b| + 1] == b;
  }

  lemma PlainTagBody(b: string, rest: string)
    requires IsPlainBody(b) && b != "literal"
    ensures TagBody("{" + b + "}" + rest) == Some(b)
  {
    var t := "{" + b + "}" + rest;
    assert forall j :: 0 <= j < |b| ==> t[j + 1] == b[j];
    assert t[|b| + 1] == '}';
    assert |t| < 9 || t[1..9] != "literal}" by {
      if |t| >= 9 {
        if |b| >= 8 {
          assert b[1..][6] == b[7];
          assert t[1..9][7] == b[7];
        } else if |b| < 7 {
          assert t[1..9][|b|] == '}';
        } else {
          assert t[1..9][..7] == b;
        }
      }
    }
    forall j | 2 <= j < |b| + 1
      ensures !OccursAt(t, "}", j)
    {
      assert b[1..][j - 2] == b[j - 1];
      assert t[j..j + 1] == [b[j - 1]];
    }
    assert OccursAt(t, "}", |b| + 1) by { assert t[|b| + 1..|b| + 2] == "}"; }
    var f := FindFrom(t, "}", 2);
    assert f == Some(|b| + 1);
    assert t[1..|b| + 1] == b;
  }

  /** A template that starts with `{`-free text and a tag splits there. */
  lemma ParseTag(text: string, b: string, rest: string)
    requires '{' !in text && IsBody(b) && b != "literal"
    ensures Parse(text + "{" + b + "}" + rest) == [text, b] + Parse(rest)
  {
    var u := "{" + b + "}" + rest;
    assert text + "{" + b + "}" + rest == text + u;
    ScanPlainText(text, u, "");
    TagBodyOf(b, rest);
    assert u[|b| + 2..] == rest;
    assert "" + text == text;
  }

  // ---------------------------------------------------------------------
  // The split is made at the leftmost tag

  /** No tag starts at index `i`: there is no `{` there, or the pattern fails at it. */
  predicate NoTagAt(s: string, i: nat)
    requires i < |s|
  {
    s[i] != '{' || TagBody(s[i..]).None?
  }

  /** No tag starts anywhere in the first `n` characters of `s`. */
  predicate NoTagBefore(s: string, n: nat)
    requires n <= |s|
  {
    forall i :: 0 <= i < n ==> NoTagAt(s, i)
  }

  /**
    The parts `r` of a scan of `s` whose first text took `n` characters of
    `s`: no tag starts before `n`; then either `s` ends, or the leftmost
    tag starts at `n` and the remaining parts are the scan of what follows it.
  */
  predicate FirstSplit(s: string, n: nat, r: seq<string>)
    requires |r| % 2 == 1
  {
    && n <= |s| && NoTagBefore(s, n)
    && (|r| == 1 ==> n == |s|)
    && (|r| > 1 ==>
          n < |s| && s[n] == '{' && TagBody(s[n..]) == Some(r[1])
          && r[2..] == Scan(s[n..][|r[1]| + 2..], ""))
  }

  /** The first part of `r` is `text` followed by the first `n` characters of `s`, and `FirstSplit` holds of `n`. */
  predicate FirstOf(s: string, text: string, r: seq<string>)
    requires |r| % 2 == 1
  {
    |r[0]| >= |text| && var n := |r[0]| - |text|;
    n <= |s| && r[0] == text + s[..n] && FirstSplit(s, n, r)
  }

  /**
    The first part of a scan is the pending text followed by the longest
    prefix of `s` at which no tag starts; after it comes either the end of
    `s` or that leftmost tag, and then the scan of what follows the tag.
  */
  lemma {:induction false} ScanFirst(s: string, text: string)
    ensures FirstOf(s, text, Scan(s, text))
    decreases |s|
  {
    if s == [] {
      assert text + s[..0] == text;
    } else if s[0] == '{' && TagBody(s).Some? {
      ScanFirstTag(s, text);
    } else {
      ScanFirst(s[1..], text + [s[0]]);
      ScanCharStep(s, text);
      NoTagAtHead(s);
      FirstStep(s, text, Scan(s, text));
    }
  }

  /** A scan that meets a tag at once: the first text is the pending text alone. */
  lemma ScanFirstTag(s: string, text: string)
    requires s != [] && s[0] == '{' && TagBody(s).Some?
    ensures FirstOf(s, text, Scan(s, text))
  {
    ScanTagStep(s, text);
    var b := TagBody(s).value;
    var r := [text, b] + Scan(s[|b| + 2..], "");
    assert r[2..] == Scan(s[|b| + 2..], "");
    assert s[0..] == s && text + s[..0] == text;
    assert FirstSplit(s, 0, r);
  }

  /** The first text of a scan that passes over a character at which no tag starts. */
  lemma FirstStep(s: string, text: string, r: seq<string>)
    requires s != [] && NoTagAt(s, 0) && |r| % 2 == 1 && FirstOf(s[1..], text + [s[0]], r)
    ensures FirstOf(s, text, r)
  {
    var n := |r[0]| - |text|;
    FirstSplitCons(s, n, r);
    FirstTextCons(s, text, n);
  }

  /** A first text that starts with a character at which no tag starts. */
  lemma FirstSplitCons(s: string, n: nat, r: seq<string>)
    requires s != [] && 0 < n && NoTagAt(s, 0) && |r| % 2 == 1 && FirstSplit(s[1..], n - 1, r)
    ensures FirstSplit(s, n, r)
  {
    NoTagBeforeCons(s, n);
    if |r| > 1 {
      assert s[n..] == s[1..][n - 1..];
    }
  }

  lemma NoTagBeforeCons(s: string, n: nat)
    requires 0 < n <= |s| && NoTagAt(s, 0) && NoTagBefore(s[1..], n - 1)
    ensures NoTagBefore(s, n)
  {
    forall i | 0 < i < n ensures NoTagAt(s, i) {
      assert s[i..] == s[1..][i - 1..];
      assert NoTagAt(s[1..], i - 1);
    }
  }

  lemma NoTagAtHead(s: string)
    requires s != [] && !(s[0] == '{' && TagBody(s).Some?)
    ensures NoTagAt(s, 0)
  {
    assert s[0..] == s;
  }

  lemma FirstTextCons(s: string, text: string, n: nat)
    requires 0 < n <= |s|
    ensures text + [s[0]] + s[1..][..n - 1] == text + s[..n]
  {
    assert s[..n] == [s[0]] + s[1..][..n - 1];
  }

  /**
    `parse` splits at the leftmost tag: the first text part is the longest
    prefix of the template at which no tag starts (a `{` of an unclosed
    comment or of an unmatched brace stays text), and when there is a tag
    the remaining parts are the parse of what follows it.
  */
  lemma ParseFirst(code: string)
    ensures var ps := Parse(code); var n := |ps[0]|;
      && n <= |code| && ps[0] == code[..n]
      && (forall i :: 0 <= i < n ==> NoTagAt(code, i))
      && (|ps| == 1 ==> ps[0] == code)
      && (|ps| > 1 ==>
            n < |code| && code[n] == '{' && TagBody(code[n..]) == Some(ps[1])
            && ps[2..] == Parse(code[n..][|ps[1]| + 2..]))
  {
    ScanFirst(code, "");
    assert "" + code[..|Parse(code)[0]|] == code[..|Parse(code)[0]|];
  }

  /** An unclosed comment `{*...` with no `{` after it stays text. */
  lemma UnclosedComment(x: string)
    requires '{' !in x && forall j :: 0 <= j ==> !OccursAt("*" + x, "*}", j)
    ensures Parse("{*" + x) == ["{*" + x]
  {
    var t := "{*" + x;
    assert t[1..] == "*" + x;
    assert !(|t| >= 3 && t[2] == '}') by {
      if |t| >= 3 {
        assert !OccursAt("*" + x, "*}", 0);
        assert ("*" + x)[0..2] == [t[1], t[2]];
      }
    }
    forall j | 2 <= j ensures !OccursAt(t, "*}", j) {
      if j + 2 <= |t| {
        OccursIn(t, 1, |t|, "*}", j - 1);
        assert t[1..|t|] == "*" + x;
        assert !OccursAt("*" + x, "*}", j - 1);
      }
    }
    assert CommentAt(t).None?;
    ScanCharStep(t, "");
    ScanPlainText(t[1..], "", "" + [t[0]]);
    assert t[1..] + "" == t[1..];
    assert "" + [t[0]] + t[1..] == t;
  }

  /**
    An unclosed `{literal}` followed by text without braces is cut as the
    plain tag `{literal}`, and the text after it is a text part.
  */
  lemma UnclosedLiteral(x: string)
    requires '{' !in x && '}' !in x
    ensures Parse("{literal}" + x) == ["", "literal", x]
  {
    var t := "{literal}" + x;
    assert t[1..9] == "literal}";
    forall j | 9 <= j ensures !OccursAt(t, "{/literal}", j) {
      if j + 10 <= |t| {
        assert t[j..j + 10][0] == x[j - 9];
      }
    }
    assert LiteralAt(t).None?;
    forall j | 2 <= j < 8 ensures !OccursAt(t, "}", j) {
      OccursOne(t, '}', j);
    }
    assert OccursAt(t, "}", 8) by { OccursOne(t, '}', 8); }
    assert FindFrom(t, "}", 2) == Some(8);
    assert PlainAt(t) == Some(t[1..8]) && t[1..8] == "literal";
    assert TagBody(t) == Some("literal");
    assert t[9..] == x;
    ScanTagStep(t, "");
    ParseNoBrace(x);
  }
}
