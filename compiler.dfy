/**
  The compiler object `trix` (trix.php:238-267) together with the state it
  inherits from `parser_trix` and `base_trix`: the parts of the template,
  the default modifier, the debug flag, the skip counter and the instance
  registry, beside the registry shared by all instances.

  `Deduce`, `DeduceVariable` and `Convert` change the object or loop as the
  source does; each is proved against the pure description in `Directives`,
  and what a whole conversion produces is proved about `Converted`, `Skips`
  and `Render` below.
*/
module Compiler {
  import opened Wrappers
  import opened Text
  import opened Modifiers
  import opened References
  import opened Tokenizer
  import opened Directives

  // ---------------------------------------------------------------------
  // What `convert` computes

  /**
    What `deduce` does to each tag body, as a function: the parts of a
    conversion below are stated for any such function and instantiated
    with this one.
  */
  function Deducer(cfg: Config): string -> Deduced {
    v => DeduceSpec(cfg, v)
  }

  /** What `convert` leaves in slot `k`: odd, non-empty slots are deduced; `null` is written as nothing. */
  function ConvertPart(deduce: string -> Deduced, k: nat, v: string): string {
    if k % 2 == 1 && v != "" then
      match deduce(v).result
      case Some(r) => r
      case None => ""
    else v
  }

  /** The parts after `convert`, slot by slot. */
  function Converted(deduce: string -> Deduced, ps: seq<string>): (r: seq<string>)
    ensures |r| == |ps|
    decreases |ps|
  {
    if ps == [] then [] else Converted(deduce, ps[..|ps| - 1]) + [ConvertPart(deduce, |ps| - 1, ps[|ps| - 1])]
  }

  /** Slot `j` of the converted parts is the conversion of slot `j` alone. */
  lemma {:induction false} ConvertedAt(deduce: string -> Deduced, ps: seq<string>, j: nat)
    requires j < |ps|
    ensures Converted(deduce, ps)[j] == ConvertPart(deduce, j, ps[j])
    decreases |ps|
  {
    var n := |ps| - 1;
    if j < n {
      ConvertedAt(deduce, ps[..n], j);
    }
  }

  /** The skips counted over the first `n` slots. */
  function SkipsUpTo(deduce: string -> Deduced, ps: seq<string>, n: nat): nat
    requires n <= |ps|
  {
    if n == 0 then 0 else SkipsUpTo(deduce, ps, n - 1) + SkipAt(deduce, n - 1, ps[n - 1])
  }

  /** One if `convert` deduces slot `k` and `deduce` counts a skip there. */
  function SkipAt(deduce: string -> Deduced, k: nat, v: string): nat {
    if k % 2 == 1 && v != "" && deduce(v).skipped then 1 else 0
  }

  function Skips(deduce: string -> Deduced, ps: seq<string>): nat {
    SkipsUpTo(deduce, ps, |ps|)
  }

  /** `file_put_contents` of an array: its elements one after another. */
  function Concat(ps: seq<string>): string
    decreases |ps|
  {
    if ps == [] then "" else ps[0] + Concat(ps[1..])
  }

  /** What a tag body becomes in the compiled text: its result, or nothing. */
  function TagOutput(deduce: string -> Deduced, b: string): string {
    if b == "" then ""
    else match deduce(b).result
      case Some(r) => r
      case None => ""
  }

  /**
    The template as `Join` rebuilds it from its parts, but with every tag
    `{b}` replaced by what `deduce` makes of `b`.
  */
  function Render(deduce: string -> Deduced, ps: seq<string>): string
    requires |ps| % 2 == 1
    decreases |ps|
  {
    if |ps| == 1 then ps[0]
    else ps[0] + TagOutput(deduce, ps[1]) + Render(deduce, ps[2..])
  }

  // ---------------------------------------------------------------------
  // The object

  class Trix {
    var parts: seq<string>
    var defaultModifier: string
    var flagDebug: bool
    var skipCount: nat
    var modMap: Registry
    const common: CommonModifiers

    /** What `deduce` reads of the object and of the shared registry. */
    function Settings(): Config
      reads this, common
    {
      Config(modMap, common.modMap, defaultModifier, flagDebug)
    }

    /** `new trix($file, $default_modifier)`: `load` on a fresh object. */
    constructor (common: CommonModifiers, code: Option<string>, d: string)
      ensures this.common == common
      ensures parts == (if code.Some? then Parse(code.value) else [])
      ensures defaultModifier == (if DefaultCheckAsWritten(d) then d else "")
      ensures !flagDebug && skipCount == 0 && modMap == map[]
    {
      this.common := common;
      parts, defaultModifier, flagDebug, skipCount, modMap := [], "", false, 0, map[];
      new;
      Load(code, d);
    }

    /**
      `load`: the default modifier is replaced only by one that passes the
      check of trix.php:246, that is `|name` with an optional final newline;
      the parts are those of the template text, or none when there is no
      text (`code` is `None` when the file cannot be read).
    */
    method Load(code: Option<string>, d: string)
      modifies this
      ensures defaultModifier == (if DefaultCheckAsWritten(d) then d else old(defaultModifier))
      ensures parts == (if code.Some? then Parse(code.value) else [])
      ensures flagDebug == old(flagDebug) && skipCount == old(skipCount) && modMap == old(modMap)
    {
      if DefaultCheckAsWritten(d) {
        defaultModifier := d;
      }
      match code {
        case Some(text) => parts := Parse(text);
        case None => parts := [];
      }
    }

    /** `add_modifiers`: registers the entries in the instance registry. */
    method AddModifiers(entries: seq<Entry>)
      modifies this
      ensures modMap == Joined(old(modMap), entries)
      ensures parts == old(parts) && defaultModifier == old(defaultModifier)
      ensures flagDebug == old(flagDebug) && skipCount == old(skipCount)
    {
      modMap := ModJoinTo(entries, modMap);
    }

    /** `deduce_variable`: the base, the sub chain, then each modifier around the result so far. */
    method DeduceVariable(v: string, p: Ref) returns (out: string)
      ensures out == VariableOutput(Settings(), v, p)
    {
      var result := BaseExpr(p.root);
      var k := SubText(p.subs);
      if PhpTruthy(k) {
        result := result + IndexRewrite(k);
      } else {
        assert result == result + "";
      }
      assert result == BaseExpr(p.root) + SubCode(SubText(p.subs));
      k := ModText(p.mods);
      var mods := if PhpTruthy(k) then NonEmpty(Explode(k, '|')) else [];
      assert mods == ModPieces(ModText(p.mods));
      result := ApplyModifiers(result, mods);
      var debug := if flagDebug then " /* " + v + " */" else "";
      out := "<?php echo " + result + ";" + debug + " ?>";
      assert out == Echo(result, v, flagDebug);
    }

    /** The `foreach` of `deduce_variable`: each piece split at `.`, looked up, and applied when found truthy. */
    method ApplyModifiers(e: string, mods: seq<string>) returns (result: string)
      ensures result == ApplyPieces(modMap, common.modMap, e, mods)
    {
      result := e;
      for i := 0 to |mods|
        invariant result == ApplyPieces(modMap, common.modMap, e, mods[..i])
      {
        ghost var before := result;
        var pieces := Explode(mods[i], '.');
        var modifier, sub := mods[i], None;
        if |pieces| == 2 {
          modifier, sub := pieces[0], Some(pieces[1]);
        }
        var mod := Find(modMap, common.modMap, modifier);
        if mod.Some? && Truthy(mod.value) {
          result := Apply(result, mod.value, sub);
        }
        assert result == ApplyPiece(modMap, common.modMap, before, mods[i]);
        ApplyPiecesSnoc(modMap, common.modMap, e, mods[..i], mods[i]);
        assert mods[..i + 1] == mods[..i] + [mods[i]];
      }
      assert mods[..|mods|] == mods;
    }

    /** `deduce`: the grammars in order; a skip adds one to the counter. */
    method Deduce(v: string) returns (result: Option<string>)
      modifies this
      ensures result == DeduceSpec(old(Settings()), v).result
      ensures skipCount == old(skipCount) + (if DeduceSpec(old(Settings()), v).skipped then 1 else 0)
      ensures parts == old(parts) && defaultModifier == old(defaultModifier)
      ensures flagDebug == old(flagDebug) && modMap == old(modMap)
    {
      // comment
      if IsComment(v) {
        return None;
      }
      // literal
      var raw := LiteralRaw(v);
      if raw.Some? {
        return raw;
      }
      // plain tokens
      var token := TokenOutput(v);
      if token.Some? {
        return token;
      }
      result := DeduceLater(v);
    }

    /** The grammars of `deduce` after the plain tokens: a variable, a static member, then the rest. */
    method DeduceLater(v: string) returns (result: Option<string>)
      requires !IsComment(v) && LiteralRaw(v).None? && TokenOutput(v).None?
      modifies this
      ensures result == DeduceSpec(old(Settings()), v).result
      ensures skipCount == old(skipCount) + (if DeduceSpec(old(Settings()), v).skipped then 1 else 0)
      ensures parts == old(parts) && defaultModifier == old(defaultModifier)
      ensures flagDebug == old(flagDebug) && modMap == old(modMap)
    {
      var isStatic := false;
      var matches := MatchRef(v, false);
      if matches.None? {
        isStatic := true;
        matches := MatchRef(v, true);
      }
      if matches.Some? {
        assert Classify(v) == Reference(isStatic, matches.value);
        result := DeduceReference(v, isStatic, matches.value);
      } else {
        result := DeduceLast(v);
      }
    }

    /** The last grammar of `deduce`, the block opener, and the skip when nothing matched. */
    method DeduceLast(v: string) returns (result: Option<string>)
      requires !IsComment(v) && LiteralRaw(v).None? && TokenOutput(v).None?
      requires MatchRef(v, false).None? && MatchRef(v, true).None?
      modifies this
      ensures result == DeduceSpec(old(Settings()), v).result
      ensures skipCount == old(skipCount) + (if DeduceSpec(old(Settings()), v).skipped then 1 else 0)
      ensures parts == old(parts) && defaultModifier == old(defaultModifier)
      ensures flagDebug == old(flagDebug) && modMap == old(modMap)
    {
      var opener := OpenerMatch(v);
      if opener.Some? {
        assert Classify(v) == Opener(opener.value.0, opener.value.1);
        return Some(OpenerText(opener.value.0, opener.value.1));
      }
      ClassifyNone(v);
      result := None;
      skipCount := skipCount + 1;
    }

    /**
      The reference branch of `deduce`: with a default, the empty slots are
      filled and the body matched again by the same pattern; a failed match
      is a skip.
    */
    method DeduceReference(v: string, isStatic: bool, p: Ref) returns (result: Option<string>)
      requires MatchRef(v, isStatic) == Some(p)
      modifies this
      ensures result == ReferenceOutput(old(Settings()), v, isStatic, p).result
      ensures skipCount == old(skipCount) + (if ReferenceOutput(old(Settings()), v, isStatic, p).skipped then 1 else 0)
      ensures parts == old(parts) && defaultModifier == old(defaultModifier)
      ensures flagDebug == old(flagDebug) && modMap == old(modMap)
    {
      var w, matches := v, p;
      if defaultModifier != "" {
        var (v2, count) := ProcessDefaultModifiers(v, defaultModifier);
        if count > 0 {
          w := v2;
          var again := MatchRef(w, isStatic);
          if again.None? {
            skipCount := skipCount + 1;
            return None;
          }
          matches := again.value;
        }
      }
      var out := DeduceVariable(w, matches);
      return Some(out);
    }

    /** One step of the loop of `convert`: slot `k` is deduced when it is odd and not empty. */
    method ConvertSlot(k: nat, ghost deduce: string -> Deduced, ghost ps: seq<string>) returns (ghost added: nat)
      requires k < |parts| == |ps| && parts[k] == ps[k] && deduce == Deducer(Settings())
      modifies this
      ensures parts == old(parts)[k := ConvertPart(deduce, k, ps[k])]
      ensures added == SkipAt(deduce, k, ps[k]) && skipCount == old(skipCount) + added
      ensures defaultModifier == old(defaultModifier) && flagDebug == old(flagDebug) && modMap == old(modMap)
    {
      var v := parts[k];
      added := 0;
      if k % 2 == 1 && v != "" {
        ghost var before := skipCount;
        var r := Deduce(v);
        parts := parts[k := match r case Some(y) => y case None => ""];
        added := skipCount - before;
      }
    }

    /** `convert`: deduces every odd, non-empty part in place and counts the skips afresh. */
    method Convert()
      modifies this
      ensures parts == Converted(Deducer(old(Settings())), old(parts))
      ensures skipCount == Skips(Deducer(old(Settings())), old(parts))
      ensures defaultModifier == old(defaultModifier) && flagDebug == old(flagDebug) && modMap == old(modMap)
    {
      ghost var cfg := Settings();
      ghost var deduce := Deducer(cfg);
      ghost var ps := parts;
      ghost var counted: seq<nat> := [];
      skipCount := 0;
      var k := 0;
      while k < |parts|
        invariant 0 <= k <= |parts| == |ps| && |counted| == k
        invariant Settings() == cfg
        invariant forall j :: 0 <= j < k ==> parts[j] == ConvertPart(deduce, j, ps[j])
        invariant forall j :: k <= j < |ps| ==> parts[j] == ps[j]
        invariant forall j :: 0 <= j < k ==> counted[j] == SkipAt(deduce, j, ps[j])
        invariant skipCount == Sum(counted)
      {
        ghost var added := ConvertSlot(k, deduce, ps);
        SumSnoc(counted, added);
        counted := counted + [added];
        k := k + 1;
      }
      ConvertedOf(deduce, ps, parts);
      SkipsOf(deduce, ps, counted);
    }

    /** What `save_compiled` writes. */
    function Compiled(): string
      reads this
    {
      Concat(parts)
    }
  }

  /** The total of a sequence of counts. */
  function Sum(ns: seq<nat>): nat {
    if ns == [] then 0 else Sum(ns[..|ns| - 1]) + ns[|ns| - 1]
  }

  lemma SumSnoc(ns: seq<nat>, n: nat)
    ensures Sum(ns + [n]) == Sum(ns) + n
  {
    assert (ns + [n])[..|ns|] == ns;
  }

  /** Counts that agree slot by slot with the skips add up to them. */
  lemma {:induction false} SkipsOf(deduce: string -> Deduced, ps: seq<string>, counted: seq<nat>)
    requires |counted| == |ps| && forall j :: 0 <= j < |ps| ==> counted[j] == SkipAt(deduce, j, ps[j])
    ensures Sum(counted) == Skips(deduce, ps)
  {
    SkipsUpToSum(deduce, ps, counted, |ps|);
    assert counted[..|ps|] == counted;
  }

  /** The same over the first `n` slots. */
  lemma {:induction false} SkipsUpToSum(deduce: string -> Deduced, ps: seq<string>, counted: seq<nat>, n: nat)
    requires n <= |counted| == |ps| && forall j :: 0 <= j < |ps| ==> counted[j] == SkipAt(deduce, j, ps[j])
    ensures Sum(counted[..n]) == SkipsUpTo(deduce, ps, n)
  {
    if n > 0 {
      SkipsUpToSum(deduce, ps, counted, n - 1);
      assert counted[..n][..n - 1] == counted[..n - 1];
    }
  }

  /** Parts that agree slot by slot with the conversion are the conversion. */
  lemma ConvertedOf(deduce: string -> Deduced, ps: seq<string>, parts: seq<string>)
    requires |parts| == |ps| && forall j :: 0 <= j < |ps| ==> parts[j] == ConvertPart(deduce, j, ps[j])
    ensures parts == Converted(deduce, ps)
  {
    forall j | 0 <= j < |ps| ensures parts[j] == Converted(deduce, ps)[j] {
      ConvertedAt(deduce, ps, j);
    }
  }

  // ---------------------------------------------------------------------
  // A whole conversion

  lemma ConcatCons2(a: string, b: string, ps: seq<string>)
    ensures Concat([a, b] + ps) == a + b + Concat(ps)
  {
    assert ([a, b] + ps)[1..] == [b] + ps;
    assert ([b] + ps)[1..] == ps;
  }

  /** Converting from slot `2n` on renders the same as converting the rest from slot 0. */
  lemma {:induction false} ConvertedRender(deduce: string -> Deduced, ps: seq<string>)
    requires |ps| % 2 == 1
    ensures Concat(Converted(deduce, ps)) == Render(deduce, ps)
    decreases |ps|
  {
    var c := Converted(deduce, ps);
    ConvertedAt(deduce, ps, 0);
    if |ps| == 1 {
      assert c == [ps[0]];
      assert c[1..] == [];
    } else {
      var rest := ps[2..];
      ConvertedRender(deduce, rest);
      ConvertedAt(deduce, ps, 1);
      ConvertedShift(deduce, ps);
      ConcatCons2(ps[0], TagOutput(deduce, ps[1]), Converted(deduce, rest));
    }
  }

  /** Dropping two slots keeps the parity of the others, so the rest converts on its own. */
  lemma {:induction false} ConvertedShift(deduce: string -> Deduced, ps: seq<string>)
    requires |ps| >= 2
    ensures Converted(deduce, ps) == Converted(deduce, ps)[..2] + Converted(deduce, ps[2..])
    decreases |ps|
  {
    var n := |ps| - 1;
    if n >= 2 {
      var front := ps[..n];
      ConvertedShift(deduce, front);
      assert ps[2..][..n - 2] == front[2..];
      assert ps[2..][n - 2] == ps[n];
      assert ConvertPart(deduce, n - 2, ps[n]) == ConvertPart(deduce, n, ps[n]);
      assert Converted(deduce, front)[..2] == Converted(deduce, ps)[..2];
    } else {
      assert ps[2..] == [];
    }
  }

  /**
    Loading a template and converting it yields the template with every tag
    `{body}` replaced by its output: `Join` restores the template from the
    parts, and the compiled text is `Render` of the same parts.
  */
  lemma CompiledTemplate(deduce: string -> Deduced, code: string)
    ensures Join(Parse(code)) == code
    ensures Concat(Converted(deduce, Parse(code))) == Render(deduce, Parse(code))
  {
    ParseRoundTrip(code);
    ConvertedRender(deduce, Parse(code));
  }

  /** A template without `{` compiles to itself, with no skip. */
  lemma TemplateWithoutTags(deduce: string -> Deduced, code: string)
    requires '{' !in code
    ensures Concat(Converted(deduce, Parse(code))) == code && Skips(deduce, Parse(code)) == 0
  {
    ParseNoBrace(code);
    var c := Converted(deduce, [code]);
    ConvertedAt(deduce, [code], 0);
    assert c == [code];
    assert c[1..] == [];
    assert Concat(c) == code + Concat([]);
    assert SkipsUpTo(deduce, [code], 1) == SkipsUpTo(deduce, [code], 0) + SkipAt(deduce, 0, code);
  }


  /**
    An unclosed `{literal}`: the tag `{literal}` is dropped and counted as a
    skip, and the text after it is kept as it is.
  */
  lemma UnclosedLiteralTemplate(cfg: Config, x: string)
    requires '{' !in x && '}' !in x
    ensures Concat(Converted(Deducer(cfg), Parse("{literal}" + x))) == x
    ensures Skips(Deducer(cfg), Parse("{literal}" + x)) == 1
  {
    UnclosedLiteral(x);
    BareLiteralUnrecognized();
    var ps := ["", "literal", x];
    assert Deducer(cfg)("literal") == Deduced(None, true);
    ConvertedOf(Deducer(cfg), ps, ["", "", x]);
    ConcatCons2("", "", [x]);
    assert ["", ""] + [x] == ["", "", x] && [x][1..] == [];
    assert Concat([x]) == x + "";
    assert SkipsUpTo(Deducer(cfg), ps, 1) == 0;
    assert SkipsUpTo(Deducer(cfg), ps, 2) == 1;
  }

  /** A slot that the loop leaves alone: the even ones (text) and the empty ones. */
  lemma ConvertedKeeps(deduce: string -> Deduced, ps: seq<string>, j: nat)
    requires j < |ps| && (j % 2 == 0 || ps[j] == "")
    ensures |Converted(deduce, ps)| == |ps| && Converted(deduce, ps)[j] == ps[j]
  {
    ConvertedAt(deduce, ps, j);
  }

  /** A slot adds no skip exactly when `convert` leaves it alone or some grammar recognises it. */
  lemma SkipAtZero(cfg: Config, k: nat, v: string)
    requires cfg.defaultModifier == "" || IsDefaultModifier(cfg.defaultModifier)
    ensures SkipAt(Deducer(cfg), k, v) == 0 <==> (k % 2 == 1 && v != "" ==> Classify(v) != Unrecognized)
  {
    SkipOnlyUnrecognized(cfg, v);
  }

  /** The count over the first `n` slots is zero exactly when no slot among them adds a skip. */
  lemma {:induction false} SkipsUpToZero(deduce: string -> Deduced, ps: seq<string>, n: nat)
    requires n <= |ps|
    ensures SkipsUpTo(deduce, ps, n) == 0 <==> forall j :: 0 <= j < n ==> SkipAt(deduce, j, ps[j]) == 0
  {
    if n > 0 {
      SkipsUpToZero(deduce, ps, n - 1);
    }
  }

  /**
    With no default, or one that `load` accepts, the skip count is zero
    exactly when every non-empty tag body is recognised by some grammar.
  */
  lemma SkipsZero(cfg: Config, ps: seq<string>, n: nat)
    requires n <= |ps| && (cfg.defaultModifier == "" || IsDefaultModifier(cfg.defaultModifier))
    ensures SkipsUpTo(Deducer(cfg), ps, n) == 0
      <==> forall j :: 0 <= j < n && j % 2 == 1 && ps[j] != "" ==> Classify(ps[j]) != Unrecognized
  {
    SkipsUpToZero(Deducer(cfg), ps, n);
    forall j | 0 <= j < n
      ensures SkipAt(Deducer(cfg), j, ps[j]) == 0 <==> (j % 2 == 1 && ps[j] != "" ==> Classify(ps[j]) != Unrecognized)
    {
      SkipAtZero(cfg, j, ps[j]);
    }
  }

  // ---------------------------------------------------------------------
  // The sample at the head of the source (trix.php:18-34)

  /** The reference of `{$fruit|}`: the variable and one empty modifier. */
  lemma SampleRef()
    ensures RefText(Ref(Var("fruit"), [], [ModItem("", None)])) + "" == "$fruit|"
    ensures FillRef(Ref(Var("fruit"), [], [ModItem("", None)]), "escape") == Ref(Var("fruit"), [], [ModItem("escape", None)])
  {
    var mods := [ModItem("", None)];
    assert ModText(mods) == "|" + "" + ModText([]) by { assert mods[1..] == []; }
    assert FillMods(mods, "escape") == [FillItem(mods[0], "escape")] + FillMods([], "escape");
  }

  /** The wrapper `escape` around `$fruit`. */
  lemma SampleEscape(local: Registry, common: Registry)
    requires "escape" !in local
    requires "escape" in common && common["escape"] == Wrap("htmlspecialchars(", ", ENT_COMPAT | ENT_HTML5, 'UTF-8', true)")
    ensures ApplyItems(local, common, "$fruit" + "", [ModItem("escape", None)])
      == "htmlspecialchars(" + "$fruit" + ", ENT_COMPAT | ENT_HTML5, 'UTF-8', true)"
  {
    var items := [ModItem("escape", None)];
    assert "$fruit" + "" == "$fruit";
    assert items[1..] == [];
  }

  /**
    `{$fruit|}` with `escape` registered as a wrapper and `|escape` as the
    default: `<?php echo htmlspecialchars($fruit, ENT_COMPAT | ENT_HTML5, 'UTF-8', true); ?>`.
  */
  lemma SampleTag(local: Registry, common: Registry, v: string)
    requires v == "$fruit|" && "escape" !in local
    requires "escape" in common && common["escape"] == Wrap("htmlspecialchars(", ", ENT_COMPAT | ENT_HTML5, 'UTF-8', true)")
    ensures var cfg := Config(local, common, "|escape", false);
      DeduceSpec(cfg, v)
      == Deduced(Some("<?php echo " + ("htmlspecialchars(" + "$fruit" + ", ENT_COMPAT | ENT_HTML5, 'UTF-8', true)") + "; ?>"), false)
  {
    SampleRef();
    SampleDeduce(Config(local, common, "|escape", false), Ref(Var("fruit"), [], [ModItem("", None)]), v, "escape");
  }

  lemma SampleDeduce(cfg: Config, p: Ref, v: string, name: string)
    requires name == "escape" && cfg.defaultModifier == "|" + name && !cfg.debug
    requires p.root == Var("fruit") && p.subs == [] && ValidMods(p.mods) && EmptyAliases(p.mods) > 0 && v == RefText(p) + ""
    requires FillRef(p, name) == Ref(Var("fruit"), [], [ModItem(name, None)])
    requires name !in cfg.local && name in cfg.common
    requires cfg.common[name] == Wrap("htmlspecialchars(", ", ENT_COMPAT | ENT_HTML5, 'UTF-8', true)")
    ensures DeduceSpec(cfg, v)
      == Deduced(Some("<?php echo " + ("htmlspecialchars(" + "$fruit" + ", ENT_COMPAT | ENT_HTML5, 'UTF-8', true)") + "; ?>"), false)
  {
    var q := FillRef(p, name);
    assert IsName("fruit") && IsName(name);
    DefaultFills(cfg, p, "", name);
    SampleOutput(cfg, q, RefText(q) + "");
  }

  /** The echo of `$fruit|escape`. */
  lemma SampleOutput(cfg: Config, q: Ref, w: string)
    requires !cfg.debug && q == Ref(Var("fruit"), [], [ModItem("escape", None)])
    requires "escape" !in cfg.local && "escape" in cfg.common
    requires cfg.common["escape"] == Wrap("htmlspecialchars(", ", ENT_COMPAT | ENT_HTML5, 'UTF-8', true)")
    ensures VariableOutput(cfg, w, q) == "<?php echo " + ("htmlspecialchars(" + "$fruit" + ", ENT_COMPAT | ENT_HTML5, 'UTF-8', true)") + "; ?>"
  {
    assert IsName("fruit") && IsName("escape") && ValidRef(q);
    ExpressionOfRef(cfg, q);
    assert BaseExpr(q.root) + SubsCode(q.subs) == "$fruit" + "" by {
      assert "$" + "fruit" == "$fruit";
    }
    SampleEscape(cfg.local, cfg.common);
    EchoPlain("htmlspecialchars(" + "$fruit" + ", ENT_COMPAT | ENT_HTML5, 'UTF-8', true)", w);
  }

  /** Without the debug flag the echo is the expression between `<?php echo ` and `; ?>`. */
  lemma EchoPlain(e: string, v: string)
    ensures Echo(e, v, false) == "<?php echo " + e + "; ?>"
  {
    assert ";" + "" + " ?>" == "; ?>";
  }

  // ---------------------------------------------------------------------
  // The check `load` makes of the default modifier, as written

  /**
    `preg_match('~^\|[a-zA-Z0-9_]+$~u', d)` as PCRE reads it: without the
    `D` flag `$` also matches before a final newline.
  */
  predicate DefaultCheckAsWritten(d: string) {
    IsDefaultModifier(d) || (|d| >= 3 && d[|d| - 1] == '\n' && IsDefaultModifier(d[..|d| - 1]))
  }

  /**
    A default that passes the check of `load` holds neither `$` nor `\`, so
    `preg_replace` finds no replacement reference in it and puts it in
    literally, as `FillPipes` does.
  */
  lemma CheckedDefaultLiteral(d: string)
    requires DefaultCheckAsWritten(d)
    ensures '$' !in d && '\\' !in d
  {
    var n := if IsDefaultModifier(d) then d else d[..|d| - 1];
    assert IsDefaultModifier(n);
    NameExcludes(n[1..], '$');
    NameExcludes(n[1..], '\\');
    assert n == [n[0]] + n[1..];
    assert d == n || d == n + "\n";
  }

  /** `|escape` followed by a newline passes the check as written, and not the intended one. */
  lemma NewlineDefault(d: string)
    requires d == "|escape\n"
    ensures DefaultCheckAsWritten(d) && !IsDefaultModifier(d)
  {
    assert d[..|d| - 1] == "|escape" && "|escape"[1..] == "escape";
    assert IsName("escape");
    assert d[1..][6] == '\n' && !IsNameChar('\n');
  }

  /** `$a||`: a variable with two empty modifiers. */
  lemma TwoSlotRef(v: string, p: Ref)
    requires v == "$a||" && p == Ref(Var("a"), [], [ModItem("", None), ModItem("", None)])
    ensures ValidRef(p) && v == RefText(p) + ""
  {
    assert IsName("a");
    assert ModText(p.mods[1..]) == "|" + "" + ModText([]) by { assert p.mods[1..][1..] == []; }
    assert "$" + "a" + "" + ("|" + "" + ("|" + "" + "")) == "$a||";
  }

  /** Both empty slots of `$a||` receive the default, taken literally. */
  lemma TwoSlotFill(v: string, d: string)
    requires v == "$a||"
    ensures EmptyPipes(v) == 2 && FillPipes(v, d) == "$a" + (d + (d + ""))
  {
    assert v == "$a" + "||" && "||" == "|" + "|" && "|" == "|" + "";
    FillPipesCopies("$a", "||", d);
    FillPipesBar("|", d);
    FillPipesBar("", d);
  }

  /**
    The check as written lets a default with a final newline through; each
    empty slot then receives the newline, and a body with two slots no
    longer matches: `{$a||}` is skipped although it is a reference.
  */
  lemma DefaultNewlineSkips(local: Registry, common: Registry, debug: bool, v: string, d: string)
    requires v == "$a||" && d == "|escape\n"
    ensures DefaultCheckAsWritten(d) && !IsDefaultModifier(d)
    ensures Classify(v).Reference? && DeduceSpec(Config(local, common, d, debug), v) == Deduced(None, true)
  {
    NewlineDefault(d);
    TwoSlotRef(v, Ref(Var("a"), [], [ModItem("", None), ModItem("", None)]));
    TwoSlotFill(v, d);
    var v2 := "$a" + (d + (d + ""));
    assert |v2| == 18 && v2[9] == d[7] == '\n';
    InnerNewlineNoMatch(v2, false, 9);
    RefillFails(Config(local, common, d, debug), Ref(Var("a"), [], [ModItem("", None), ModItem("", None)]), v, v2);
  }

  /** A variable reference whose filled text no longer matches is skipped. */
  lemma RefillFails(cfg: Config, p: Ref, v: string, v2: string)
    requires ValidRef(p) && p.root.Var? && v == RefText(p) + ""
    requires cfg.defaultModifier != "" && EmptyPipes(v) > 0 && FillPipes(v, cfg.defaultModifier) == v2
    requires MatchRef(v2, false).None?
    ensures Classify(v).Reference? && DeduceSpec(cfg, v) == Deduced(None, true)
  {
    ClassifyRef(p, "");
  }
}
