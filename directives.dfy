/**
  What `parser_trix::deduce` makes of one tag body (trix.php:112-198), as a
  function of the body and of the configuration it reads: the two modifier
  registries, the default modifier and the debug flag.

  `Classify` tries the grammars in the order of the source: comment,
  literal, the token table, a `$` reference, a `&` reference, a block
  opener; `DeduceSpec` gives the result `deduce` returns and whether it
  counted a skip. The modifier chain of a reference is folded left to right
  over the pieces of the captured text (`ApplyPieces`); `ApplyItems` is the
  same fold stated on the structure of the reference.
*/
module Directives {
  import opened Wrappers
  import opened Text
  import opened Modifiers
  import opened References
  import opened Tokenizer

  /** What `deduce` reads of the object: both registries, the default modifier and the debug flag. */
  datatype Config = Config(local: Registry, common: Registry, defaultModifier: string, debug: bool)

  // ---------------------------------------------------------------------
  // The single-purpose patterns

  /** `~^\*.*\*$~us`: a star, anything, a star, then the end (or a final newline). */
  predicate IsComment(v: string) {
    |v| >= 2 && v[0] == '*'
    && (v[|v| - 1] == '*' || (|v| >= 3 && v[|v| - 2] == '*' && v[|v| - 1] == '\n'))
  }

  /** The `raw` group of `~^literal\}(?P<raw>.+)\{\/literal$~us`, when the body matches. */
  function LiteralRaw(v: string): (r: Option<string>)
    ensures r.Some? ==> r.value != ""
    ensures r.Some? ==> v == "literal}" + r.value + "{/literal" || v == "literal}" + r.value + "{/literal\n"
  {
    if |v| >= 18 && v[..8] == "literal}" && v[|v| - 9..] == "{/literal" then
      assert v == v[..8] + v[8..|v| - 9] + v[|v| - 9..];
      Some(v[8..|v| - 9])
    else if |v| >= 19 && v[..8] == "literal}" && v[|v| - 10..] == "{/literal\n" then
      assert v == v[..8] + v[8..|v| - 10] + v[|v| - 10..];
      Some(v[8..|v| - 10])
    else None
  }

  /** The token table of `deduce`: a frame type (`null` or `tag`) and a text for each exact body. */
  function TokenEntry(v: string): Option<(Option<string>, string)> {
    match v
    case "ld" => Some((None, "{"))
    case "ldelim" => Some((None, "{"))
    case "rd" => Some((None, "}"))
    case "rdelim" => Some((None, "}"))
    case "/if" => Some((Some("tag"), "endif;"))
    case "/each" => Some((Some("tag"), "endforeach;"))
    case "/foreach" => Some((Some("tag"), "endforeach;"))
    case "else" => Some((Some("tag"), "else:"))
    case _ => None
  }

  /** The frames a token type puts around its text: only `tag` has one. */
  function TokenFrame(ty: Option<string>): Option<(string, string)> {
    if ty == Some("tag") then Some(("<?php ", " ?>")) else None
  }

  /** The text `deduce` gives an exact token body, framed when its type has a frame. */
  function TokenOutput(v: string): Option<string> {
    match TokenEntry(v)
    case None => None
    case Some((ty, text)) =>
      match TokenFrame(ty)
      case Some((open, close)) => Some(open + text + close)
      case None => Some(text)
  }

  /** `if|elseif|foreach|each` at the front of `v`, followed by white space. */
  predicate HasKeyword(v: string, kw: string) {
    |kw| < |v| && v[..|kw|] == kw && IsSpace(v[|kw|])
  }

  /** The alternative of `(?P<type>if|elseif|foreach|each)\s` that matches, tried in order. */
  function OpenerKeyword(v: string): (r: Option<string>)
    ensures r.Some? ==> r.value in {"if", "elseif", "foreach", "each"} && HasKeyword(v, r.value)
  {
    if HasKeyword(v, "if") then Some("if")
    else if HasKeyword(v, "elseif") then Some("elseif")
    else if HasKeyword(v, "foreach") then Some("foreach")
    else if HasKeyword(v, "each") then Some("each")
    else None
  }

  predicate AllSpace(s: string) {
    forall i :: 0 <= i < |s| ==> IsSpace(s[i])
  }

  /** The longest run of white space at the front of `s` (a greedy `\s*`), and what follows it. */
  function SpaceRun(s: string): (r: (string, string))
    ensures r.0 + r.1 == s && AllSpace(r.0)
    ensures r.1 == [] || !IsSpace(r.1[0])
    ensures s != [] && IsSpace(s[0]) ==> r.0 != []
    decreases |s|
  {
    if s != [] && IsSpace(s[0]) then
      var (w, rest) := SpaceRun(s[1..]);
      Assoc([s[0]], w, rest);
      ([s[0]] + w, rest)
    else ("", s)
  }

  /**
    `~^(?P<type>if|elseif|foreach|each)\s+(?P<expr>.*)$~u`: the keyword and
    the expression. Without the `s` flag `.` stops at a newline, so the
    expression is what follows the white space, less one final newline, and
    it may hold no other newline.
  */
  function OpenerMatch(v: string): (r: Option<(string, string)>)
    ensures r.Some? ==> r.value.0 in {"if", "elseif", "foreach", "each"} && '\n' !in r.value.1
  {
    match OpenerKeyword(v)
    case None => None
    case Some(kw) =>
      var rest := SpaceRun(v[|kw|..]).1;
      if '\n' !in rest then Some((kw, rest))
      else if rest[|rest| - 1] == '\n' && '\n' !in rest[..|rest| - 1] then Some((kw, rest[..|rest| - 1]))
      else None
  }

  /** `'<?php '. $repl .'( '. expr .' ): ?>'`, with `each` written as `foreach`. */
  function OpenerText(kw: string, expr: string): string {
    "<?php " + (if kw == "each" then "foreach" else kw) + "( " + expr + " ): ?>"
  }

  // ---------------------------------------------------------------------
  // `deduce_variable` (trix.php:209-236)

  /** The base expression: `$name`, `Class::CONST` or `Class::$prop`. */
  function BaseExpr(r: Root): string {
    match r
    case Var(n) => "$" + n
    case Static(c, property, m) => c + "::" + (if property then "$" else "") + m
  }

  /** The code of the captured `sub` group, when it is truthy. */
  function SubCode(sub: string): string {
    if PhpTruthy(sub) then IndexRewrite(sub) else ""
  }

  /** One piece of the modifier chain: split off a sub-key, look the alias up, apply it when truthy. */
  function ApplyPiece(local: Registry, common: Registry, e: string, piece: string): string {
    var (alias, sub) := SplitPiece(piece);
    match Find(local, common, alias)
    case Some(m) => if Truthy(m) then Apply(e, m, sub) else e
    case None => e
  }

  /** The pieces applied in order, each one around the result of those before it. */
  function ApplyPieces(local: Registry, common: Registry, e: string, pieces: seq<string>): string
    decreases |pieces|
  {
    if pieces == [] then e
    else ApplyPieces(local, common, ApplyPiece(local, common, e, pieces[0]), pieces[1..])
  }

  /** The expression `deduce_variable` builds for a matched reference. */
  function Expression(cfg: Config, p: Ref): string {
    ApplyPieces(cfg.local, cfg.common, BaseExpr(p.root) + SubCode(SubText(p.subs)), ModPieces(ModText(p.mods)))
  }

  /** `'<?php echo '. E .';'. debug .' ?>'`, the debug part quoting the body. */
  function Echo(e: string, v: string, debug: bool): string {
    "<?php echo " + e + ";" + (if debug then " /* " + v + " */" else "") + " ?>"
  }

  /** What `deduce_variable` returns for the body `v` and its match `p`. */
  function VariableOutput(cfg: Config, v: string, p: Ref): string {
    Echo(Expression(cfg, p), v, cfg.debug)
  }

  // ---------------------------------------------------------------------
  // `deduce` (trix.php:112-198)

  datatype Kind =
    | Comment
    | Literal(raw: string)
    | Token(text: string)
    | Reference(isStatic: bool, p: Ref)
    | Opener(keyword: string, expr: string)
    | Unrecognized

  /** The first grammar of `deduce` that the body matches. */
  function Classify(v: string): Kind {
    if IsComment(v) then Comment
    else if LiteralRaw(v).Some? then Literal(LiteralRaw(v).value)
    else if TokenOutput(v).Some? then Token(TokenOutput(v).value)
    else if MatchRef(v, false).Some? then Reference(false, MatchRef(v, false).value)
    else if MatchRef(v, true).Some? then Reference(true, MatchRef(v, true).value)
    else if OpenerMatch(v).Some? then Opener(OpenerMatch(v).value.0, OpenerMatch(v).value.1)
    else Unrecognized
  }

  /** The result of `deduce` (`null` is `None`) and whether it added one to the skip count. */
  datatype Deduced = Deduced(result: Option<string>, skipped: bool)

  /** `process_default_modifiers`: the rewritten body when a slot was filled, and the number of slots. */
  function ProcessDefaultModifiers(v: string, d: string): (string, nat) {
    var count := EmptyPipes(v);
    (if count > 0 then FillPipes(v, d) else v, count)
  }

  /** A reference body: fill the empty slots with the default, match again, and build the echo. */
  function ReferenceOutput(cfg: Config, v: string, isStatic: bool, p: Ref): Deduced {
    var (v2, count) := ProcessDefaultModifiers(v, cfg.defaultModifier);
    if cfg.defaultModifier != "" && count > 0 then
      match MatchRef(v2, isStatic)
      case None => Deduced(None, true)
      case Some(p2) => Deduced(Some(VariableOutput(cfg, v2, p2)), false)
    else Deduced(Some(VariableOutput(cfg, v, p)), false)
  }

  function DeduceSpec(cfg: Config, v: string): Deduced {
    match Classify(v)
    case Comment => Deduced(None, false)
    case Literal(raw) => Deduced(Some(raw), false)
    case Token(text) => Deduced(Some(text), false)
    case Reference(isStatic, p) => ReferenceOutput(cfg, v, isStatic, p)
    case Opener(kw, expr) => Deduced(Some(OpenerText(kw, expr)), false)
    case Unrecognized => Deduced(None, true)
  }

  /**
    A default modifier of the form `|name`, nothing after: what the check of
    `load` evidently intends, which the check as written also passes with a
    final newline.
  */
  predicate IsDefaultModifier(d: string) {
    |d| >= 2 && d[0] == '|' && IsName(d[1..])
  }

  // ---------------------------------------------------------------------
  // The single-purpose patterns, read backwards

  /** A non-empty raw text between `literal}` and `{/literal` is captured verbatim. */
  lemma LiteralOf(raw: string, t: string)
    requires raw != "" && IsEnd(t)
    ensures LiteralRaw("literal}" + raw + "{/literal" + t) == Some(raw)
  {
    var v := "literal}" + raw + "{/literal" + t;
    assert v[..8] == "literal}";
    if t == "" {
      assert v[|v| - 9..] == "{/literal";
      assert v[8..|v| - 9] == raw;
    } else {
      assert v[|v| - 9..] != "{/literal" by { assert v[|v| - 1] == '\n'; }
      assert v[|v| - 10..] == "{/literal\n";
      assert v[8..|v| - 10] == raw;
    }
  }

  lemma {:induction false} SpaceRunOf(ws: string, w: string)
    requires AllSpace(ws) && (w == [] || !IsSpace(w[0]))
    ensures SpaceRun(ws + w) == (ws, w)
    decreases |ws|
  {
    if ws == [] {
      assert ws + w == w;
    } else {
      assert (ws + w)[1..] == ws[1..] + w;
      assert (ws + w)[0] == ws[0];
      SpaceRunOf(ws[1..], w);
      assert [ws[0]] + ws[1..] == ws;
    }
  }

  /** Which keyword opens `kw + ws + ...`: the keyword itself (none is a prefix of another). */
  lemma KeywordOf(kw: string, ws: string, rest: string)
    requires kw in {"if", "elseif", "foreach", "each"} && ws != [] && IsSpace(ws[0])
    ensures OpenerKeyword(kw + (ws + rest)) == Some(kw)
  {
    var v := kw + (ws + rest);
    assert v[..|kw|] == kw && v[|kw|] == ws[0];
    assert v[0] == kw[0] && v[1] == kw[1];
  }

  /**
    A keyword, white space, and an expression without newlines that does not
    start with white space, optionally followed by one newline, is an opener
    with exactly that expression.
  */
  lemma OpenerOf(kw: string, ws: string, expr: string, t: string)
    requires kw in {"if", "elseif", "foreach", "each"} && ws != [] && AllSpace(ws)
    requires (expr == [] || !IsSpace(expr[0])) && '\n' !in expr && IsEnd(t) && (expr == [] ==> t == "")
    ensures OpenerMatch(kw + (ws + (expr + t))) == Some((kw, expr))
  {
    var v := kw + (ws + (expr + t));
    KeywordOf(kw, ws, expr + t);
    assert v[|kw|..] == ws + (expr + t);
    SpaceRunOf(ws, expr + t);
    if t == "" {
      assert expr + t == expr;
    } else {
      var rest := expr + t;
      assert rest[|rest| - 1] == '\n' && rest[..|rest| - 1] == expr;
    }
  }

  // ---------------------------------------------------------------------
  // The modifier fold

  lemma {:induction false} ApplyPiecesAppend(local: Registry, common: Registry, e: string, a: seq<string>, b: seq<string>)
    ensures ApplyPieces(local, common, e, a + b) == ApplyPieces(local, common, ApplyPieces(local, common, e, a), b)
    decreases |a|
  {
    if a == [] {
      assert a + b == b;
    } else {
      assert (a + b)[0] == a[0];
      assert (a + b)[1..] == a[1..] + b;
      ApplyPiecesAppend(local, common, ApplyPiece(local, common, e, a[0]), a[1..], b);
    }
  }

  /** Applying one more piece applies it to the result of the pieces before it. */
  lemma ApplyPiecesSnoc(local: Registry, common: Registry, e: string, ps: seq<string>, x: string)
    ensures ApplyPieces(local, common, e, ps + [x]) == ApplyPiece(local, common, ApplyPieces(local, common, e, ps), x)
  {
    ApplyPiecesAppend(local, common, e, ps, [x]);
    assert [x][1..] == [];
  }

  /** The last modifier of a chain is the outermost: its prefix and suffix enclose all the others. */
  lemma LastOutermost(local: Registry, common: Registry, e: string, ps: seq<string>, x: string, m: Modifier)
    requires Find(local, common, SplitPiece(x).0) == Some(m) && Truthy(m)
    ensures ApplyPieces(local, common, e, ps + [x])
      == ApplyPrefix(m, SplitPiece(x).1) + ApplyPieces(local, common, e, ps) + ApplySuffix(m)
  {
    ApplyPiecesSnoc(local, common, e, ps, x);
    ApplyFrames(ApplyPieces(local, common, e, ps), m, SplitPiece(x).1);
  }

  /** A piece whose alias is not found, or is found falsy, can be deleted from the chain. */
  lemma UnresolvedIgnored(local: Registry, common: Registry, e: string, a: seq<string>, x: string, b: seq<string>)
    requires var f := Find(local, common, SplitPiece(x).0); f.None? || !Truthy(f.value)
    ensures ApplyPieces(local, common, e, a + [x] + b) == ApplyPieces(local, common, e, a + b)
  {
    ApplyPiecesAppend(local, common, e, a + [x], b);
    ApplyPiecesSnoc(local, common, e, a, x);
    ApplyPiecesAppend(local, common, e, a, b);
  }

  /** Two call-style modifiers: the second is called on the result of the first. */
  lemma CallChain(local: Registry, common: Registry, e: string, a1: string, a2: string, f1: string, f2: string)
    requires '.' !in a1 && '.' !in a2 && PhpTruthy(f1) && PhpTruthy(f2)
    requires Find(local, common, a1) == Some(Call(f1)) && Find(local, common, a2) == Some(Call(f2))
    ensures ApplyPieces(local, common, e, [a1, a2]) == f2 + "( " + f1 + "( " + e + " )" + " )"
  {
    ExplodeNone(a1, '.');
    ExplodeNone(a2, '.');
    assert [a1, a2] == [a1] + [a2];
    ApplyPiecesSnoc(local, common, e, [a1], a2);
    ApplyPiecesSnoc(local, common, e, [], a1);
    assert [] + [a1] == [a1];
  }

  /** One item of a matched modifier chain: a bare `|` is dropped; otherwise its alias is looked up and applied when truthy. */
  function ApplyItem(local: Registry, common: Registry, e: string, m: ModItem): string {
    if m.alias == "" && m.sub.None? then e
    else match Find(local, common, m.alias)
      case Some(mod) => if Truthy(mod) then Apply(e, mod, m.sub) else e
      case None => e
  }

  /** The items of a matched chain applied in order. */
  function ApplyItems(local: Registry, common: Registry, e: string, items: seq<ModItem>): string
    decreases |items|
  {
    if items == [] then e else ApplyItems(local, common, ApplyItem(local, common, e, items[0]), items[1..])
  }

  lemma NonEmptyCons(x: string, ys: seq<string>)
    ensures NonEmpty([x] + ys) == (if x == "" then [] else [x]) + NonEmpty(ys)
  {
    assert ([x] + ys)[0] == x && ([x] + ys)[1..] == ys;
  }

  /** Folding over the split pieces of a chain is folding over its items. */
  lemma {:induction false} PiecesOfItems(local: Registry, common: Registry, e: string, items: seq<ModItem>)
    requires ValidMods(items)
    ensures ApplyPieces(local, common, e, NonEmpty(PieceTexts(items))) == ApplyItems(local, common, e, items)
    decreases |items|
  {
    if items != [] {
      var m, rest := items[0], items[1..];
      var x := PieceText(m);
      assert PieceTexts(items) == [x] + PieceTexts(rest);
      NonEmptyCons(x, PieceTexts(rest));
      if x == "" {
        assert m.alias == "" && m.sub.None?;
        assert [] + NonEmpty(PieceTexts(rest)) == NonEmpty(PieceTexts(rest));
        PiecesOfItems(local, common, e, rest);
      } else {
        SplitPieceOf(m);
        var ys := NonEmpty(PieceTexts(rest));
        assert ([x] + ys)[0] == x && ([x] + ys)[1..] == ys;
        assert ApplyPiece(local, common, e, x) == ApplyItem(local, common, e, m);
        PiecesOfItems(local, common, ApplyItem(local, common, e, m), rest);
      }
    }
  }

  // ---------------------------------------------------------------------
  // References

  /** A sub chain's text never reads as PHP's false `"0"`. */
  lemma SubCodeOf(items: seq<SubItem>)
    requires ValidSubs(items)
    ensures SubCode(SubText(items)) == SubsCode(items)
  {
    if items != [] {
      var x := SubItemText(items[0]);
      assert SubText(items)[0] == x[0];
      IndexRewriteSubs(items);
    }
  }

  /** What `deduce_variable` builds: the base, the sub chain as PHP code, then the modifier items in order. */
  lemma ExpressionOfRef(cfg: Config, p: Ref)
    requires ValidRef(p)
    ensures Expression(cfg, p) == ApplyItems(cfg.local, cfg.common, BaseExpr(p.root) + SubsCode(p.subs), p.mods)
  {
    SubCodeOf(p.subs);
    ModPiecesOfText(p.mods);
    PiecesOfItems(cfg.local, cfg.common, BaseExpr(p.root) + SubsCode(p.subs), p.mods);
  }

  /** The first character of a reference's text is its sigil. */
  lemma RefHead(p: Ref, t: string)
    ensures var v := RefText(p) + t; v != [] && v[0] == (if p.root.Static? then '&' else '$')
  {
    var r := RootText(p.root);
    assert RefText(p) + t == r + (SubText(p.subs) + ModText(p.mods) + t);
    assert r[0] == (if p.root.Static? then '&' else '$');
  }

  /** A body whose first character is `$` or `&` is neither comment, literal nor token. */
  lemma NotEarlierGrammar(v: string)
    requires v != [] && (v[0] == '$' || v[0] == '&')
    ensures !IsComment(v) && LiteralRaw(v).None? && TokenOutput(v).None?
  {
    if LiteralRaw(v).Some? { LiteralHead(v); }
  }

  /** A well-formed reference, with or without a final newline, is classified as that reference. */
  lemma ClassifyRef(p: Ref, t: string)
    requires ValidRef(p) && IsEnd(t)
    ensures Classify(RefText(p) + t) == Reference(p.root.Static?, p)
  {
    RefHead(p, t);
    NotEarlierGrammar(RefText(p) + t);
    MatchRefComplete(p, t);
  }

  /** The empty slots of a reference are its empty aliases. */
  lemma EmptyPipesOfRef(p: Ref, t: string)
    requires ValidRef(p) && IsEnd(t)
    ensures EmptyPipes(RefText(p) + t) == EmptyAliases(p.mods)
  {
    FillPipesRef(p, "d", t);
  }

  /**
    A reference with no slot for the default to fill: `<?php echo E; ?>`,
    where E is the base, the sub chain as PHP code, and the modifiers
    applied left to right.
  */
  lemma ReferenceDeduce(cfg: Config, p: Ref, t: string)
    requires ValidRef(p) && IsEnd(t) && (cfg.defaultModifier == "" || EmptyAliases(p.mods) == 0)
    ensures var v := RefText(p) + t;
      DeduceSpec(cfg, v) == Deduced(Some(
        Echo(ApplyItems(cfg.local, cfg.common, BaseExpr(p.root) + SubsCode(p.subs), p.mods), v, cfg.debug)), false)
  {
    ClassifyRef(p, t);
    EmptyPipesOfRef(p, t);
    ExpressionOfRef(cfg, p);
  }

  lemma {:induction false} FillModsNoop(items: seq<ModItem>, name: string)
    requires EmptyAliases(items) == 0
    ensures FillMods(items, name) == items
    decreases |items|
  {
    if items != [] {
      FillModsNoop(items[1..], name);
    }
  }

  /** A reference whose text is `v` is deduced by `ReferenceOutput`. */
  lemma DeduceRef(cfg: Config, p: Ref, t: string)
    requires ValidRef(p) && IsEnd(t)
    ensures DeduceSpec(cfg, RefText(p) + t) == ReferenceOutput(cfg, RefText(p) + t, p.root.Static?, p)
  {
    ClassifyRef(p, t);
  }

  /** With slots to fill, the default fills them and the filled text is matched again. */
  lemma DefaultFills(cfg: Config, p: Ref, t: string, name: string)
    requires ValidRef(p) && IsEnd(t) && IsName(name) && cfg.defaultModifier == "|" + name
    requires EmptyAliases(p.mods) > 0
    ensures var q := FillRef(p, name);
      DeduceSpec(cfg, RefText(p) + t) == Deduced(Some(VariableOutput(cfg, RefText(q) + t, q)), false)
  {
    var q := FillRef(p, name);
    DeduceRef(cfg, p, t);
    FillPipesRef(p, name, t);
    MatchRefComplete(q, t);
    FilledOutput(cfg, RefText(p) + t, p.root.Static?, p, RefText(q) + t, q);
  }

  /** When the filled body matches again, its match is what is echoed. */
  lemma FilledOutput(cfg: Config, v: string, isStatic: bool, p: Ref, v2: string, p2: Ref)
    requires cfg.defaultModifier != "" && EmptyPipes(v) > 0 && FillPipes(v, cfg.defaultModifier) == v2
    requires MatchRef(v2, isStatic) == Some(p2)
    ensures ReferenceOutput(cfg, v, isStatic, p) == Deduced(Some(VariableOutput(cfg, v2, p2)), false)
  {
  }

  /** The filled reference has no slot left, so it is deduced as it stands. */
  lemma DefaultSlots(cfg: Config, p: Ref, t: string, name: string)
    requires ValidRef(p) && IsEnd(t) && IsName(name) && cfg.defaultModifier == "|" + name
    requires EmptyAliases(p.mods) > 0
    ensures var q := FillRef(p, name); var e := BaseExpr(p.root) + SubsCode(p.subs);
      DeduceSpec(cfg, RefText(p) + t) == DeduceSpec(cfg, RefText(q) + t)
      && DeduceSpec(cfg, RefText(p) + t) == Deduced(Some(Echo(ApplyItems(cfg.local, cfg.common, e, q.mods), RefText(q) + t, cfg.debug)), false)
  {
    var q := FillRef(p, name);
    FillPipesRef(p, name, t);
    DefaultFills(cfg, p, t, name);
    ReferenceDeduce(cfg, q, t);
    ExpressionOfRef(cfg, q);
  }

  /** Without slots the default changes nothing. */
  lemma DefaultNoSlot(cfg: Config, p: Ref, t: string, name: string)
    requires ValidRef(p) && IsEnd(t) && EmptyAliases(p.mods) == 0
    ensures var e := BaseExpr(p.root) + SubsCode(p.subs);
      FillRef(p, name) == p
      && DeduceSpec(cfg, RefText(p) + t) == Deduced(Some(Echo(ApplyItems(cfg.local, cfg.common, e, p.mods), RefText(p) + t, cfg.debug)), false)
  {
    FillModsNoop(p.mods, name);
    ReferenceDeduce(cfg, p, t);
  }

  /**
    With a default modifier of the form `|name`, a reference is
    deduced exactly as the reference whose empty aliases are the default's
    name (`$fruit|` as `$fruit|escape`), and it is never skipped.
  */
  lemma DefaultDeduce(cfg: Config, p: Ref, t: string)
    requires ValidRef(p) && IsEnd(t) && IsDefaultModifier(cfg.defaultModifier)
    ensures var q := FillRef(p, cfg.defaultModifier[1..]);
      DeduceSpec(cfg, RefText(p) + t) == DeduceSpec(cfg, RefText(q) + t)
    ensures var q := FillRef(p, cfg.defaultModifier[1..]);
      DeduceSpec(cfg, RefText(p) + t) == Deduced(Some(
        Echo(ApplyItems(cfg.local, cfg.common, BaseExpr(p.root) + SubsCode(p.subs), q.mods), RefText(q) + t, cfg.debug)), false)
  {
    var d := cfg.defaultModifier;
    Uncons(d);
    if EmptyAliases(p.mods) == 0 {
      DefaultNoSlot(cfg, p, t, d[1..]);
    } else {
      DefaultSlots(cfg, p, t, d[1..]);
    }
  }

  /**
    With no default, or one of the form `|name`, `deduce` skips
    exactly the bodies no grammar recognises, and returns `null` exactly
    for those and for comments.
  */
  lemma SkipOnlyUnrecognized(cfg: Config, v: string)
    requires cfg.defaultModifier == "" || IsDefaultModifier(cfg.defaultModifier)
    ensures DeduceSpec(cfg, v).skipped <==> Classify(v) == Unrecognized
    ensures DeduceSpec(cfg, v).result.None? <==> (Classify(v) == Unrecognized || Classify(v) == Comment)
  {
    if Classify(v).Reference? {
      RefNeverSkipped(cfg, v);
    } else {
      DeduceOther(cfg, v);
    }
  }

  /** Every body other than a reference: only comments and unrecognised bodies give `null`, only the latter is a skip. */
  lemma DeduceOther(cfg: Config, v: string)
    requires !Classify(v).Reference?
    ensures DeduceSpec(cfg, v).skipped <==> Classify(v) == Unrecognized
    ensures DeduceSpec(cfg, v).result.None? <==> (Classify(v) == Unrecognized || Classify(v) == Comment)
  {
  }

  /** A reference, with no default or one of the form `|name`, always gives an echo. */
  lemma RefNeverSkipped(cfg: Config, v: string)
    requires cfg.defaultModifier == "" || IsDefaultModifier(cfg.defaultModifier)
    requires Classify(v).Reference?
    ensures !DeduceSpec(cfg, v).skipped && DeduceSpec(cfg, v).result.Some?
  {
    if cfg.defaultModifier == "" {
      RefNoDefault(cfg, v);
    } else {
      RefNameDefault(cfg, v);
    }
  }

  lemma RefNoDefault(cfg: Config, v: string)
    requires cfg.defaultModifier == "" && Classify(v).Reference?
    ensures DeduceSpec(cfg, v) == Deduced(Some(VariableOutput(cfg, v, Classify(v).p)), false)
  {
  }

  lemma RefNameDefault(cfg: Config, v: string)
    requires IsDefaultModifier(cfg.defaultModifier) && Classify(v).Reference?
    ensures !DeduceSpec(cfg, v).skipped && DeduceSpec(cfg, v).result.Some?
  {
    var s, p := Classify(v).isStatic, Classify(v).p;
    MatchRefSound(v, s);
    if v == RefText(p) {
      assert v == RefText(p) + "";
      DefaultDeduce(cfg, p, "");
    } else {
      DefaultDeduce(cfg, p, "\n");
    }
  }

  // ---------------------------------------------------------------------
  // Tag bodies from the tokenizer, the token table and block openers

  /** `{*}` is not recognised. */
  lemma StarUnrecognized()
    ensures Classify("*") == Unrecognized
  {
  }

  /** A literal body starts with `l`. */
  lemma LiteralHead(v: string)
    requires LiteralRaw(v).Some?
    ensures v[0] == 'l'
  {
    assert v[..8][0] == v[0];
  }

  /** An opener starts with the first letter of its keyword. */
  lemma OpenerHead(v: string)
    requires OpenerMatch(v).Some?
    ensures v[0] == 'i' || v[0] == 'e' || v[0] == 'f'
  {
    var kw := OpenerKeyword(v).value;
    assert v[..|kw|][0] == v[0];
  }

  /** A body that every grammar rejects is not recognised. */
  lemma ClassifyNone(v: string)
    requires !IsComment(v) && LiteralRaw(v).None? && TokenOutput(v).None?
    requires MatchRef(v, false).None? && MatchRef(v, true).None? && OpenerMatch(v).None?
    ensures Classify(v) == Unrecognized
  {
  }

  lemma EmptyLiteralNotLiteral()
    ensures LiteralRaw("literal}{/literal").None? && TokenOutput("literal}{/literal").None?
  {
  }

  lemma EmptyLiteralNotOpener()
    ensures OpenerMatch("literal}{/literal").None?
  {
    var b := "literal}{/literal";
    if OpenerMatch(b).Some? { OpenerHead(b); }
  }

  /** The empty literal `{literal}{/literal}` is not recognised. */
  lemma EmptyLiteralUnrecognized()
    ensures Classify("literal}{/literal") == Unrecognized
  {
    EmptyLiteralNotLiteral();
    EmptyLiteralNotOpener();
    ClassifyNone("literal}{/literal");
  }

  /** The bare body `literal`, which an unclosed `{literal}` leaves, is not recognised. */
  lemma BareLiteralUnrecognized()
    ensures Classify("literal") == Unrecognized
  {
    var b := "literal";
    if OpenerMatch(b).Some? { OpenerHead(b); }
    ClassifyNone(b);
  }

  /** A literal body with something between its markers gives that text verbatim. */
  lemma LiteralTag(cfg: Config, b: string)
    requires IsLiteralBody(b) && |b| > 17
    ensures DeduceSpec(cfg, b) == Deduced(Some(b[8..|b| - 9]), false)
  {
    assert b[0] == b[..8][0];
  }

  /** A literal body with nothing between its markers is the empty literal. */
  lemma EmptyLiteralTag(b: string)
    requires IsLiteralBody(b) && |b| == 17
    ensures b == "literal}{/literal"
  {
    assert b == b[..8] + b[|b| - 9..];
  }

  /** What `deduce` makes of each kind of body the tokenizer produces. */
  lemma TagOutcomes(cfg: Config, b: string)
    ensures IsCommentBody(b) ==> DeduceSpec(cfg, b) == Deduced(None, false)
    ensures b == "*" ==> DeduceSpec(cfg, b) == Deduced(None, true)
    ensures IsLiteralBody(b) && |b| > 17 ==> DeduceSpec(cfg, b) == Deduced(Some(b[8..|b| - 9]), false)
    ensures IsLiteralBody(b) && |b| == 17 ==> DeduceSpec(cfg, b) == Deduced(None, true)
  {
    if b == "*" {
      StarUnrecognized();
    } else if IsLiteralBody(b) {
      if |b| == 17 {
        EmptyLiteralTag(b);
        EmptyLiteralUnrecognized();
      } else {
        LiteralTag(cfg, b);
      }
    }
  }

  /** The token table: delimiters verbatim, block closers and `else` as PHP tags. */
  lemma TokenOutputs()
    ensures TokenOutput("ld") == Some("{") && TokenOutput("ldelim") == Some("{")
    ensures TokenOutput("rd") == Some("}") && TokenOutput("rdelim") == Some("}")
    ensures TokenOutput("/if") == Some("<?php endif; ?>")
    ensures TokenOutput("/each") == Some("<?php endforeach; ?>")
    ensures TokenOutput("/foreach") == Some("<?php endforeach; ?>")
    ensures TokenOutput("else") == Some("<?php else: ?>")
  {
    assert "<?php " + "endif;" == "<?php endif;";
    assert "<?php endif;" + " ?>" == "<?php endif; ?>";
    assert "<?php " + "endforeach;" == "<?php endforeach;";
    assert "<?php endforeach;" + " ?>" == "<?php endforeach; ?>";
    assert "<?php " + "else:" == "<?php else:";
    assert "<?php else:" + " ?>" == "<?php else: ?>";
  }

  /** An exact token is neither comment nor literal, so `deduce` returns its text. */
  lemma TokenDeduce(cfg: Config, v: string)
    requires TokenOutput(v).Some?
    ensures DeduceSpec(cfg, v) == Deduced(TokenOutput(v), false)
  {
    assert |v| <= 8 && v[0] != '*';
  }

  /** No body that starts with an opener keyword and white space is a token. */
  lemma NotTokenOpener(v: string, kw: string)
    requires kw in {"if", "elseif", "foreach", "each"} && HasKeyword(v, kw)
    ensures TokenOutput(v).None?
  {
    assert v[0] == kw[0] && v[1] == kw[1];
  }

  /** A body that the opener pattern matches matches no earlier grammar. */
  lemma ClassifyOpener(v: string)
    requires OpenerMatch(v).Some?
    ensures Classify(v) == Opener(OpenerMatch(v).value.0, OpenerMatch(v).value.1)
  {
    OpenerHead(v);
    NotTokenOpener(v, OpenerKeyword(v).value);
    if LiteralRaw(v).Some? { LiteralHead(v); }
  }

  /** A block opener becomes `<?php K( expr ): ?>`, with `each` written as `foreach`. */
  lemma OpenerDeduce(cfg: Config, kw: string, ws: string, expr: string, t: string)
    requires kw in {"if", "elseif", "foreach", "each"} && ws != [] && AllSpace(ws)
    requires (expr == [] || !IsSpace(expr[0])) && '\n' !in expr && IsEnd(t) && (expr == [] ==> t == "")
    ensures var v := kw + (ws + (expr + t));
      DeduceSpec(cfg, v) == Deduced(Some("<?php " + (if kw == "each" then "foreach" else kw) + "( " + expr + " ): ?>"), false)
  {
    var v := kw + (ws + (expr + t));
    OpenerOf(kw, ws, expr, t);
    OpenerSpec(cfg, v);
  }

  /** What `deduce` makes of a body the opener pattern matches. */
  lemma OpenerSpec(cfg: Config, v: string)
    requires OpenerMatch(v).Some?
    ensures DeduceSpec(cfg, v) == Deduced(Some(OpenerText(OpenerMatch(v).value.0, OpenerMatch(v).value.1)), false)
  {
    ClassifyOpener(v);
  }
}
