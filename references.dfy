/**
  The variable and static-member references of `parser_trix::deduce`
  (trix.php:95-98, 165-171): a root `$name`, `&Class:CONST` or
  `&Class.prop`, a chain of sub-accesses `.key` / `->field` and a chain of
  modifiers `|alias` / `|alias.sub`, optionally followed by one newline
  (PCRE's `$` without the `D` flag).

  The references are described twice: as a structure whose text is
  `RefText`, and by `MatchRef`, the deterministic scanner the patterns amount
  to. `MatchRefSound` and `MatchRefComplete` show that the two agree. The
  module also models the three string rewrites `deduce_variable` and
  `process_default_modifiers` perform on the captured text.
*/
module References {
  import opened Wrappers
  import opened Text

  /** `.key` (array index) or `->field` (property access). */
  datatype SubItem = Index(key: string) | Member(field: string)

  /** `|alias` or `|alias.sub`; alias and sub may be empty. */
  datatype ModItem = ModItem(alias: string, sub: Option<string>)

  /** `$name`, or `&cls:member` (constant, `property` false) or `&cls.member` (static property). */
  datatype Root = Var(name: string) | Static(cls: string, property: bool, member: string)

  datatype Ref = Ref(root: Root, subs: seq<SubItem>, mods: seq<ModItem>)

  // ---------------------------------------------------------------------
  // The grammar as structure and text

  function SubItemText(it: SubItem): string {
    match it
    case Index(k) => "." + k
    case Member(f) => "->" + f
  }

  function SubText(items: seq<SubItem>): string
    decreases |items|
  {
    if items == [] then "" else SubItemText(items[0]) + SubText(items[1..])
  }

  /** The text of a modifier between its `|` and the next one. */
  function PieceText(m: ModItem): string {
    match m.sub
    case Some(k) => m.alias + "." + k
    case None => m.alias
  }

  function ModItemText(m: ModItem): string {
    "|" + PieceText(m)
  }

  function ModText(items: seq<ModItem>): string
    decreases |items|
  {
    if items == [] then "" else ModItemText(items[0]) + ModText(items[1..])
  }

  function RootText(r: Root): string {
    match r
    case Var(n) => "$" + n
    case Static(c, p, m) => "&" + c + Separator(p) + m
  }

  function RefText(r: Ref): string {
    RootText(r.root) + SubText(r.subs) + ModText(r.mods)
  }

  predicate ValidSub(it: SubItem) {
    match it
    case Index(k) => IsName(k)
    case Member(f) => IsName(f)
  }

  predicate ValidSubs(items: seq<SubItem>)
    decreases |items|
  {
    items == [] || (ValidSub(items[0]) && ValidSubs(items[1..]))
  }

  predicate ValidMod(m: ModItem) {
    AllName(m.alias) && (m.sub.Some? ==> AllName(m.sub.value))
  }

  predicate ValidMods(items: seq<ModItem>)
    decreases |items|
  {
    items == [] || (ValidMod(items[0]) && ValidMods(items[1..]))
  }

  predicate ValidRoot(r: Root) {
    match r
    case Var(n) => IsName(n)
    case Static(c, _, m) => IsName(c) && IsName(m)
  }

  predicate ValidRef(r: Ref) {
    ValidRoot(r.root) && ValidSubs(r.subs) && ValidMods(r.mods)
  }

  /** PCRE's `$` without the `D` flag: what may remain after a match is nothing or one newline. */
  predicate IsEnd(t: string) {
    t == "" || t == "\n"
  }

  // ---------------------------------------------------------------------
  // The scanner, on the text that remains to be read

  /** The greedy `(?:(?:\.|\->)[nc]+)*`: the items it reads and the text after them. */
  function Subs(s: string): (r: (seq<SubItem>, string))
    ensures |r.1| <= |s|
    decreases |s|
  {
    if |s| > 1 && s[0] == '.' && IsNameChar(s[1]) then
      var (k, rest) := NameRun(s[1..]);
      var (items, after) := Subs(rest);
      ([Index(k)] + items, after)
    else if |s| > 2 && s[0] == '-' && s[1] == '>' && IsNameChar(s[2]) then
      var (f, rest) := NameRun(s[2..]);
      var (items, after) := Subs(rest);
      ([Member(f)] + items, after)
    else ([], s)
  }

  /** The greedy `(?:\|[nc]*(?:\.[nc]*)?)*`: the items it reads and the text after them. */
  function Mods(s: string): (r: (seq<ModItem>, string))
    ensures |r.1| <= |s|
    decreases |s|
  {
    if s != [] && s[0] == '|' then
      var (alias, rest) := NameRun(s[1..]);
      if rest != [] && rest[0] == '.' then
        var (k, rest') := NameRun(rest[1..]);
        var (items, after) := Mods(rest');
        ([ModItem(alias, Some(k))] + items, after)
      else
        var (items, after) := Mods(rest);
        ([ModItem(alias, None)] + items, after)
    else ([], s)
  }

  /** What follows the root: the two chains, then the end. */
  function Tail(root: Root, s: string): Option<Ref> {
    var (subs, rest) := Subs(s);
    var (mods, after) := Mods(rest);
    if IsEnd(after) then Some(Ref(root, subs, mods)) else None
  }

  /**
    The variable pattern `^\$([nc]+)` + sub + mod + `$` (when `isStatic` is
    false), or the static one `^&` + class, `:`/`.`, member + sub + mod + `$`.
  */
  function MatchRef(v: string, isStatic: bool): Option<Ref> {
    if !isStatic then
      if v != [] && v[0] == '$' then
        var (n, rest) := NameRun(v[1..]);
        if n != [] then Tail(Var(n), rest) else None
      else None
    else if v != [] && v[0] == '&' then
      var (c, rest) := NameRun(v[1..]);
      if c != [] && rest != [] && (rest[0] == ':' || rest[0] == '.') then
        var (m, rest') := NameRun(rest[1..]);
        if m != [] then Tail(Static(c, rest[0] == '.', m), rest') else None
      else None
    else None
  }

  // ---------------------------------------------------------------------
  // Soundness of the scanner

  /** One step of `Subs` over `.key`. */
  lemma SubsIndexStep(s: string)
    requires |s| > 1 && s[0] == '.' && IsNameChar(s[1])
    ensures var (k, rest) := NameRun(s[1..]);
      Subs(s) == ([Index(k)] + Subs(rest).0, Subs(rest).1)
  {
  }

  /** One step of `Subs` over `->field`. */
  lemma SubsMemberStep(s: string)
    requires |s| > 2 && s[0] == '-' && s[1] == '>' && IsNameChar(s[2])
    ensures var (f, rest) := NameRun(s[2..]);
      Subs(s) == ([Member(f)] + Subs(rest).0, Subs(rest).1)
  {
  }

  /** One step of `Mods` over `|alias.sub`. */
  lemma ModsSubStep(s: string)
    requires s != [] && s[0] == '|'
    requires var rest := NameRun(s[1..]).1; rest != [] && rest[0] == '.'
    ensures var (alias, rest) := NameRun(s[1..]); var (k, rest') := NameRun(rest[1..]);
      Mods(s) == ([ModItem(alias, Some(k))] + Mods(rest').0, Mods(rest').1)
  {
  }

  /** One step of `Mods` over `|alias`. */
  lemma ModsAliasStep(s: string)
    requires s != [] && s[0] == '|'
    requires var rest := NameRun(s[1..]).1; !(rest != [] && rest[0] == '.')
    ensures var (alias, rest) := NameRun(s[1..]);
      Mods(s) == ([ModItem(alias, None)] + Mods(rest).0, Mods(rest).1)
  {
  }

  lemma SubTextCons(it: SubItem, items: seq<SubItem>)
    ensures SubText([it] + items) == SubItemText(it) + SubText(items)
  {
    assert ([it] + items)[1..] == items;
  }

  lemma ModTextCons(m: ModItem, items: seq<ModItem>)
    ensures ModText([m] + items) == ModItemText(m) + ModText(items)
  {
    assert ([m] + items)[1..] == items;
  }

  /** The text of `|alias.k`, followed by `x`, in the order the scanner reads it. */
  lemma ModSubShape(alias: string, k: string, x: string)
    ensures ModItemText(ModItem(alias, Some(k))) + x == "|" + (alias + ("." + (k + x)))
  {
    Reassoc4("|", alias, ".", k);
    Reassoc5("|", alias, ".", k, x);
  }

  /** The text of `|alias`, followed by `x`, in the order the scanner reads it. */
  lemma ModAliasShape(alias: string, x: string)
    ensures ModItemText(ModItem(alias, None)) + x == "|" + (alias + x)
  {
    Assoc("|", alias, x);
  }

  lemma SubsIndexSound(s: string)
    requires |s| > 1 && s[0] == '.' && IsNameChar(s[1])
    requires var r := NameRun(s[1..]).1; r == SubText(Subs(r).0) + Subs(r).1 && ValidSubs(Subs(r).0)
    ensures s == SubText(Subs(s).0) + Subs(s).1 && ValidSubs(Subs(s).0)
  {
    var (k, r) := NameRun(s[1..]);
    var (items, after) := Subs(r);
    SubsIndexStep(s);
    Uncons(s);
    assert [s[0]] == ".";
    Reassoc4(".", k, SubText(items), after);
    SubTextCons(Index(k), items);
    assert ([Index(k)] + items)[1..] == items;
  }

  lemma SubsMemberSound(s: string)
    requires |s| > 2 && s[0] == '-' && s[1] == '>' && IsNameChar(s[2])
    requires var r := NameRun(s[2..]).1; r == SubText(Subs(r).0) + Subs(r).1 && ValidSubs(Subs(r).0)
    ensures s == SubText(Subs(s).0) + Subs(s).1 && ValidSubs(Subs(s).0)
  {
    var (f, r) := NameRun(s[2..]);
    var (items, after) := Subs(r);
    SubsMemberStep(s);
    Uncons2(s);
    assert [s[0], s[1]] == "->";
    Reassoc4("->", f, SubText(items), after);
    SubTextCons(Member(f), items);
    assert ([Member(f)] + items)[1..] == items;
  }

  /** What `Subs` reads is a well-formed sub chain, and it reads the text verbatim. */
  lemma {:induction false} SubsSound(s: string)
    ensures s == SubText(Subs(s).0) + Subs(s).1 && ValidSubs(Subs(s).0)
    decreases |s|
  {
    if |s| > 1 && s[0] == '.' && IsNameChar(s[1]) {
      SubsSound(NameRun(s[1..]).1);
      SubsIndexSound(s);
    } else if |s| > 2 && s[0] == '-' && s[1] == '>' && IsNameChar(s[2]) {
      SubsSound(NameRun(s[2..]).1);
      SubsMemberSound(s);
    } else {
      assert Subs(s) == ([], s);
    }
  }

  lemma ModsSubSound(s: string)
    requires s != [] && s[0] == '|'
    requires var r := NameRun(s[1..]).1; r != [] && r[0] == '.'
    requires var r := NameRun(NameRun(s[1..]).1[1..]).1;
      r == ModText(Mods(r).0) + Mods(r).1 && ValidMods(Mods(r).0)
    ensures s == ModText(Mods(s).0) + Mods(s).1 && ValidMods(Mods(s).0)
  {
    var (alias, rest) := NameRun(s[1..]);
    var (k, rest') := NameRun(rest[1..]);
    var (items, after) := Mods(rest');
    var m := ModItem(alias, Some(k));
    ModsSubStep(s);
    Uncons(s);
    Uncons(rest);
    assert [s[0]] == "|" && [rest[0]] == ".";
    ModSubShape(alias, k, ModText(items) + after);
    ModTextCons(m, items);
    Assoc(ModItemText(m), ModText(items), after);
    assert ([m] + items)[1..] == items;
  }

  lemma ModsAliasSound(s: string)
    requires s != [] && s[0] == '|'
    requires var r := NameRun(s[1..]).1; !(r != [] && r[0] == '.')
    requires var r := NameRun(s[1..]).1; r == ModText(Mods(r).0) + Mods(r).1 && ValidMods(Mods(r).0)
    ensures s == ModText(Mods(s).0) + Mods(s).1 && ValidMods(Mods(s).0)
  {
    var (alias, rest) := NameRun(s[1..]);
    var (items, after) := Mods(rest);
    var m := ModItem(alias, None);
    ModsAliasStep(s);
    Uncons(s);
    assert [s[0]] == "|";
    ModAliasShape(alias, ModText(items) + after);
    ModTextCons(m, items);
    Assoc(ModItemText(m), ModText(items), after);
    assert ([m] + items)[1..] == items;
  }

  /** What `Mods` reads is a well-formed modifier chain, and it reads the text verbatim. */
  lemma {:induction false} ModsSound(s: string)
    ensures s == ModText(Mods(s).0) + Mods(s).1 && ValidMods(Mods(s).0)
    ensures Mods(s).1 == [] || Mods(s).1[0] != '|'
    decreases |s|
  {
    if s != [] && s[0] == '|' {
      var rest := NameRun(s[1..]).1;
      if rest != [] && rest[0] == '.' {
        ModsSound(NameRun(rest[1..]).1);
        ModsSubSound(s);
        ModsSubStep(s);
      } else {
        ModsSound(rest);
        ModsAliasSound(s);
        ModsAliasStep(s);
      }
    } else {
      assert Mods(s) == ([], s);
    }
  }

  /** What is left after the two chains of a tail. */
  function TailRest(s: string): string {
    Mods(Subs(s).1).1
  }

  lemma TailSound(root: Root, s: string)
    requires Tail(root, s).Some?
    ensures var p := Tail(root, s).value;
      p.root == root && ValidSubs(p.subs) && ValidMods(p.mods)
      && IsEnd(TailRest(s)) && s == SubText(p.subs) + ModText(p.mods) + TailRest(s)
  {
    var (subs, rest) := Subs(s);
    var (mods, after) := Mods(rest);
    SubsSound(s);
    ModsSound(rest);
    Assoc(SubText(subs), ModText(mods), after);
  }

  /** `MatchRef` on a variable reference: the name, then the tail. */
  lemma VarStep(v: string)
    requires MatchRef(v, false).Some?
    ensures v != [] && v[0] == '$' && NameRun(v[1..]).0 != []
    ensures MatchRef(v, false) == Tail(Var(NameRun(v[1..]).0), NameRun(v[1..]).1)
  {
  }

  lemma VarSound(v: string)
    requires MatchRef(v, false).Some?
    ensures var p := MatchRef(v, false).value;
      ValidRef(p) && p.root.Var? && IsEnd(TailRest(NameRun(v[1..]).1))
      && v == RefText(p) + TailRest(NameRun(v[1..]).1)
  {
    VarStep(v);
    var (n, rest) := NameRun(v[1..]);
    TailSound(Var(n), rest);
    var p := Tail(Var(n), rest).value;
    Uncons(v);
    assert [v[0]] == "$";
    Reassoc5("$", n, SubText(p.subs), ModText(p.mods), TailRest(rest));
  }

  /** What follows the root of a static reference. */
  function StaticTail(v: string): string
    requires |v| > 0
  {
    var rest := NameRun(v[1..]).1;
    if rest == [] then "" else NameRun(rest[1..]).1
  }

  /** `MatchRef` on a static reference: class, separator, member, then the tail. */
  lemma StaticStep(v: string)
    requires MatchRef(v, true).Some?
    ensures v != [] && v[0] == '&'
    ensures var (c, rest) := NameRun(v[1..]);
      c != [] && rest != [] && (rest[0] == ':' || rest[0] == '.')
      && NameRun(rest[1..]).0 != []
      && MatchRef(v, true) == Tail(Static(c, rest[0] == '.', NameRun(rest[1..]).0), NameRun(rest[1..]).1)
  {
  }

  /** The separator of a static reference as text. */
  function Separator(property: bool): string {
    if property then "." else ":"
  }

  lemma StaticSound(v: string)
    requires MatchRef(v, true).Some?
    ensures var p := MatchRef(v, true).value;
      ValidRef(p) && p.root.Static? && IsEnd(TailRest(StaticTail(v)))
      && v == RefText(p) + TailRest(StaticTail(v))
  {
    StaticStep(v);
    var (c, rest) := NameRun(v[1..]);
    var (m, rest') := NameRun(rest[1..]);
    var root := Static(c, rest[0] == '.', m);
    TailSound(root, rest');
    var p := Tail(root, rest').value;
    var t := TailRest(rest');
    Uncons(v);
    Uncons(rest);
    assert [v[0]] == "&" && [rest[0]] == Separator(rest[0] == '.');
    Reassoc7("&", c, Separator(rest[0] == '.'), m, SubText(p.subs), ModText(p.mods), t);
  }

  /** Whatever the scanner accepts is a well-formed reference, with at most a final newline. */
  lemma MatchRefSound(v: string, isStatic: bool)
    requires MatchRef(v, isStatic).Some?
    ensures var p := MatchRef(v, isStatic).value;
      ValidRef(p) && p.root.Static? == isStatic && (v == RefText(p) || v == RefText(p) + "\n")
  {
    if isStatic {
      StaticSound(v);
      assert IsEnd(TailRest(StaticTail(v)));
    } else {
      VarSound(v);
      assert IsEnd(TailRest(NameRun(v[1..]).1));
    }
  }

  // ---------------------------------------------------------------------
  // Completeness of the scanner

  /** What may follow a sub chain inside a reference: a modifier, a final newline, or nothing. */
  predicate SubsFollow(w: string) {
    w == [] || w[0] == '|' || w[0] == '\n'
  }

  /** A sub chain followed by such text never starts with a name character. */
  lemma SubTextHead(items: seq<SubItem>, w: string)
    requires SubsFollow(w)
    ensures var a := SubText(items) + w; a == [] || !IsNameChar(a[0])
  {
    if items != [] {
      var x := SubItemText(items[0]);
      Assoc(x, SubText(items[1..]), w);
      assert (x + (SubText(items[1..]) + w))[0] == x[0];
    }
  }

  /** A modifier chain followed by the end is again such text. */
  lemma ModTextHead(items: seq<ModItem>, t: string)
    requires IsEnd(t)
    ensures SubsFollow(ModText(items) + t)
  {
    if items != [] {
      var x := ModItemText(items[0]);
      Assoc(x, ModText(items[1..]), t);
      assert (x + (ModText(items[1..]) + t))[0] == x[0];
    }
  }

  lemma SubsOfIndex(key: string, w: string)
    requires IsName(key) && (w == [] || !IsNameChar(w[0]))
    ensures Subs("." + (key + w)) == ([Index(key)] + Subs(w).0, Subs(w).1)
  {
    var s := "." + (key + w);
    ConsTail(".", key + w);
    assert s[1] == key[0];
    NameRunOf(key, w);
    SubsIndexStep(s);
  }

  lemma SubsOfMember(field: string, w: string)
    requires IsName(field) && (w == [] || !IsNameChar(w[0]))
    ensures Subs("->" + (field + w)) == ([Member(field)] + Subs(w).0, Subs(w).1)
  {
    var s := "->" + (field + w);
    assert s[2..] == field + w;
    assert s[0] == '-' && s[1] == '>' && s[2] == field[0];
    NameRunOf(field, w);
    SubsMemberStep(s);
  }

  lemma SubsOfItem(it: SubItem, w: string)
    requires ValidSub(it) && (w == [] || !IsNameChar(w[0]))
    ensures Subs(SubItemText(it) + w) == ([it] + Subs(w).0, Subs(w).1)
  {
    match it
    case Index(key) =>
      Assoc(".", key, w);
      SubsOfIndex(key, w);
    case Member(field) =>
      Assoc("->", field, w);
      SubsOfMember(field, w);
  }

  lemma {:induction false} SubsOf(items: seq<SubItem>, w: string)
    requires ValidSubs(items) && SubsFollow(w)
    ensures Subs(SubText(items) + w) == (items, w)
    decreases |items|
  {
    if items == [] {
      assert SubText(items) + w == w;
    } else {
      var rest := items[1..];
      SubsOf(rest, w);
      assert [items[0]] + rest == items;
      SubsOfCons(items[0], rest, w);
    }
  }

  /** One item in front of a chain that reads back. */
  lemma SubsOfCons(it: SubItem, rest: seq<SubItem>, w: string)
    requires ValidSub(it) && SubsFollow(w) && Subs(SubText(rest) + w) == (rest, w)
    ensures Subs(SubText([it] + rest) + w) == ([it] + rest, w)
  {
    var x, y := SubItemText(it), SubText(rest) + w;
    assert ([it] + rest)[1..] == rest;
    SubTextHead(rest, w);
    SubsOfItem(it, y);
    Assoc(x, SubText(rest), w);
  }

  lemma ModsOfAlias(alias: string, w: string)
    requires AllName(alias) && SubsFollow(w)
    ensures Mods("|" + (alias + w)) == ([ModItem(alias, None)] + Mods(w).0, Mods(w).1)
  {
    var s := "|" + (alias + w);
    ConsTail("|", alias + w);
    NameRunOf(alias, w);
    ModsAliasStep(s);
  }

  lemma ModsOfSub(alias: string, k: string, w: string)
    requires AllName(alias) && AllName(k) && SubsFollow(w)
    ensures Mods("|" + (alias + ("." + (k + w)))) == ([ModItem(alias, Some(k))] + Mods(w).0, Mods(w).1)
  {
    var s := "|" + (alias + ("." + (k + w)));
    ConsTail("|", alias + ("." + (k + w)));
    ConsTail(".", k + w);
    NameRunOf(alias, "." + (k + w));
    NameRunOf(k, w);
    ModsSubStep(s);
  }

  lemma ModsOfItem(m: ModItem, w: string)
    requires ValidMod(m) && SubsFollow(w)
    ensures Mods(ModItemText(m) + w) == ([m] + Mods(w).0, Mods(w).1)
  {
    match m.sub
    case Some(k) =>
      ModSubShape(m.alias, k, w);
      ModsOfSub(m.alias, k, w);
    case None =>
      ModAliasShape(m.alias, w);
      ModsOfAlias(m.alias, w);
  }

  lemma {:induction false} ModsOf(items: seq<ModItem>, t: string)
    requires ValidMods(items) && IsEnd(t)
    ensures Mods(ModText(items) + t) == (items, t)
    decreases |items|
  {
    if items == [] {
      assert ModText(items) + t == t;
    } else {
      var rest := items[1..];
      ModsOf(rest, t);
      assert [items[0]] + rest == items;
      ModsOfCons(items[0], rest, t);
    }
  }

  /** One modifier in front of a list that reads back. */
  lemma ModsOfCons(m: ModItem, rest: seq<ModItem>, t: string)
    requires ValidMod(m) && IsEnd(t) && Mods(ModText(rest) + t) == (rest, t)
    ensures Mods(ModText([m] + rest) + t) == ([m] + rest, t)
  {
    var x, y := ModItemText(m), ModText(rest) + t;
    assert ([m] + rest)[1..] == rest;
    ModTextHead(rest, t);
    ModsOfItem(m, y);
    Assoc(x, ModText(rest), t);
  }

  lemma TailOf(p: Ref, t: string)
    requires ValidRef(p) && IsEnd(t)
    ensures Tail(p.root, SubText(p.subs) + ModText(p.mods) + t) == Some(p)
  {
    var w := ModText(p.mods) + t;
    ModTextHead(p.mods, t);
    Assoc(SubText(p.subs), ModText(p.mods), t);
    SubsOf(p.subs, w);
    ModsOf(p.mods, t);
  }

  /** What follows the root of a reference never starts with a name character. */
  lemma AfterRoot(p: Ref, t: string)
    requires ValidRef(p) && IsEnd(t)
    ensures var w := SubText(p.subs) + ModText(p.mods) + t; w == [] || !IsNameChar(w[0])
  {
    ModTextHead(p.mods, t);
    Assoc(SubText(p.subs), ModText(p.mods), t);
    SubTextHead(p.subs, ModText(p.mods) + t);
  }

  /** `MatchRef` on `$`, a name and what follows it. */
  lemma VarMatch(v: string, n: string, w: string)
    requires v == "$" + (n + w) && n != [] && NameRun(n + w) == (n, w)
    ensures MatchRef(v, false) == Tail(Var(n), w)
  {
    ConsTail("$", n + w);
  }

  lemma VarOf(p: Ref, t: string)
    requires ValidRef(p) && p.root.Var? && IsEnd(t)
    ensures MatchRef(RefText(p) + t, false) == Some(p)
  {
    var n := p.root.name;
    var w := SubText(p.subs) + ModText(p.mods) + t;
    Reassoc5("$", n, SubText(p.subs), ModText(p.mods), t);
    AfterRoot(p, t);
    NameRunOf(n, w);
    VarMatch(RefText(p) + t, n, w);
    TailOf(p, t);
  }

  /** `MatchRef` on `&`, a class name, a separator, a member name and what follows them. */
  lemma StaticMatch(v: string, c: string, rest: string, m: string, w: string)
    requires v == "&" + (c + rest) && c != [] && NameRun(c + rest) == (c, rest)
    requires rest != [] && (rest[0] == ':' || rest[0] == '.')
    requires m != [] && NameRun(rest[1..]) == (m, w)
    ensures MatchRef(v, true) == Tail(Static(c, rest[0] == '.', m), w)
  {
    ConsTail("&", c + rest);
  }

  lemma StaticOf(p: Ref, t: string)
    requires ValidRef(p) && p.root.Static? && IsEnd(t)
    ensures MatchRef(RefText(p) + t, true) == Some(p)
  {
    var Static(c, prop, m) := p.root;
    var sep := Separator(prop);
    var w := SubText(p.subs) + ModText(p.mods) + t;
    var rest := sep + (m + w);
    Reassoc7("&", c, sep, m, SubText(p.subs), ModText(p.mods), t);
    ConsTail(sep, m + w);
    NameRunOf(c, rest);
    AfterRoot(p, t);
    NameRunOf(m, w);
    StaticMatch(RefText(p) + t, c, rest, m, w);
    TailOf(p, t);
  }

  /** Every well-formed reference, with or without a final newline, is recognised as itself. */
  lemma MatchRefComplete(p: Ref, t: string)
    requires ValidRef(p) && IsEnd(t)
    ensures MatchRef(RefText(p) + t, p.root.Static?) == Some(p)
  {
    if p.root.Var? { VarOf(p, t); } else { StaticOf(p, t); }
  }

  // ---------------------------------------------------------------------
  // `preg_replace('~\.([nc]+)~', "['\1']", sub)` (trix.php:217)

  /** Every `.` followed by name characters becomes `['` name `']`; all else is copied. */
  function IndexRewrite(s: string): string
    decreases |s|
  {
    if s == [] then ""
    else if |s| > 1 && s[0] == '.' && IsNameChar(s[1]) then
      var (k, rest) := NameRun(s[1..]);
      "['" + k + "']" + IndexRewrite(rest)
    else [s[0]] + IndexRewrite(s[1..])
  }

  /** The sub chain as the generated PHP writes it. */
  function SubsCode(items: seq<SubItem>): string
    decreases |items|
  {
    if items == [] then ""
    else
      (match items[0]
       case Index(k) => "['" + k + "']"
       case Member(f) => "->" + f)
      + SubsCode(items[1..])
  }

  lemma {:induction false} IndexRewriteCopies(p: string, u: string)
    requires '.' !in p
    ensures IndexRewrite(p + u) == p + IndexRewrite(u)
    decreases |p|
  {
    if p != [] {
      assert (p + u)[0] == p[0];
      assert (p + u)[1..] == p[1..] + u;
      assert '.' !in p[1..];
      IndexRewriteCopies(p[1..], u);
      assert [p[0]] + p[1..] == p;
    } else {
      assert p + u == u;
    }
  }

  lemma IndexRewriteIndex(key: string, w: string)
    requires IsName(key) && (w == [] || !IsNameChar(w[0]))
    ensures IndexRewrite("." + key + w) == "['" + key + "']" + IndexRewrite(w)
  {
    var s := "." + key + w;
    assert s[1..] == key + w;
    NameRunOf(key, w);
  }

  /** Every `.key` becomes `['key']` and every `->field` stays as it is. */
  lemma {:induction false} IndexRewriteSubs(items: seq<SubItem>)
    requires ValidSubs(items)
    ensures IndexRewrite(SubText(items)) == SubsCode(items)
    decreases |items|
  {
    if items != [] {
      var rest := items[1..];
      IndexRewriteSubs(rest);
      var w := SubText(rest);
      assert w == [] || !IsNameChar(w[0]) by {
        if rest != [] { assert w[0] == SubItemText(rest[0])[0]; }
      }
      match items[0] {
        case Index(key) =>
          IndexRewriteIndex(key, w);
        case Member(field) =>
          NameExcludes(field, '.');
          IndexRewriteCopies("->" + field, w);
      }
    }
  }

  // ---------------------------------------------------------------------
  // `preg_split('~\|~', mod, -1, PREG_SPLIT_NO_EMPTY)` and `explode('.', piece)` (trix.php:222-227)

  /** The non-empty pieces of the captured modifier chain (nothing when it is falsy). */
  function ModPieces(mod: string): seq<string> {
    if PhpTruthy(mod) then NonEmpty(Explode(mod, '|')) else []
  }

  /** A piece with exactly one `.` is an alias and a sub-key; any other piece is an alias alone. */
  function SplitPiece(piece: string): (string, Option<string>) {
    var parts := Explode(piece, '.');
    if |parts| == 2 then (parts[0], Some(parts[1])) else (piece, None)
  }

  function PieceTexts(items: seq<ModItem>): seq<string>
    decreases |items|
  {
    if items == [] then [] else [PieceText(items[0])] + PieceTexts(items[1..])
  }

  lemma PieceNoBar(m: ModItem)
    requires ValidMod(m)
    ensures '|' !in PieceText(m)
  {
    NameExcludes(m.alias, '|');
    if m.sub.Some? {
      NameExcludes(m.sub.value, '|');
    }
  }

  lemma {:induction false} ExplodeModsTail(items: seq<ModItem>)
    requires items != [] && ValidMods(items)
    ensures Explode(PieceText(items[0]) + ModText(items[1..]), '|') == PieceTexts(items)
    decreases |items|
  {
    var rest := items[1..];
    PieceNoBar(items[0]);
    if rest == [] {
      assert PieceText(items[0]) + ModText(rest) == PieceText(items[0]);
      ExplodeNone(PieceText(items[0]), '|');
    } else {
      var tail := PieceText(rest[0]) + ModText(rest[1..]);
      assert PieceText(items[0]) + ModText(rest) == PieceText(items[0]) + ['|'] + tail;
      ExplodeCons(PieceText(items[0]), '|', tail);
      ExplodeModsTail(rest);
    }
  }

  /** Splitting the captured chain at `|` gives the pieces of the items, empty ones dropped. */
  lemma ModPiecesOfText(items: seq<ModItem>)
    requires ValidMods(items)
    ensures ModPieces(ModText(items)) == NonEmpty(PieceTexts(items))
  {
    if items != [] {
      var s := ModText(items);
      ExplodeModText(items);
      assert s[0] == '|';
      NonEmptyAppend([""], PieceTexts(items));
      assert NonEmpty([""]) == [];
    }
  }

  /** The chain starts with `|`, so `explode` yields an empty piece first and then the items' pieces. */
  lemma ExplodeModText(items: seq<ModItem>)
    requires items != [] && ValidMods(items)
    ensures Explode(ModText(items), '|') == [""] + PieceTexts(items)
  {
    var tail := PieceText(items[0]) + ModText(items[1..]);
    assert ModText(items) == [] + ['|'] + tail;
    ExplodeCons([], '|', tail);
    ExplodeModsTail(items);
  }

  /** Each piece splits back into the item's alias and sub-key. */
  lemma SplitPieceOf(m: ModItem)
    requires ValidMod(m)
    ensures SplitPiece(PieceText(m)) == (m.alias, m.sub)
  {
    NameExcludes(m.alias, '.');
    match m.sub
    case Some(k) =>
      NameExcludes(k, '.');
      ExplodeCons(m.alias, '.', k);
      ExplodeNone(k, '.');
    case None =>
      ExplodeNone(m.alias, '.');
  }

  // ---------------------------------------------------------------------
  // `preg_replace('~\|(?![nc])~', default, v, -1, $count)` (trix.php:203)

  /** A `|` at `i` that no name character follows: an empty modifier slot. */
  predicate EmptyPipeAt(v: string, i: nat)
    requires i < |v|
  {
    v[i] == '|' && (i + 1 == |v| || !IsNameChar(v[i + 1]))
  }

  /** `v` with every empty modifier slot replaced by `d`. */
  function FillPipes(v: string, d: string): string
    decreases |v|
  {
    if v == [] then ""
    else (if EmptyPipeAt(v, 0) then d else [v[0]]) + FillPipes(v[1..], d)
  }

  /** How many replacements `FillPipes` makes. */
  function EmptyPipes(v: string): nat
    decreases |v|
  {
    if v == [] then 0
    else (if EmptyPipeAt(v, 0) then 1 else 0) + EmptyPipes(v[1..])
  }

  /** A modifier item after the default `|name` fills an empty alias. */
  function FillItem(m: ModItem, name: string): ModItem {
    if m.alias == "" then ModItem(name, m.sub) else m
  }

  /** The modifier chain after the default `|name` fills the empty aliases. */
  function FillMods(items: seq<ModItem>, name: string): seq<ModItem>
    decreases |items|
  {
    if items == [] then [] else [FillItem(items[0], name)] + FillMods(items[1..], name)
  }

  /** The number of empty aliases in the chain. */
  function EmptyAliases(items: seq<ModItem>): nat
    decreases |items|
  {
    if items == [] then 0 else (if items[0].alias == "" then 1 else 0) + EmptyAliases(items[1..])
  }

  lemma {:induction false} FillPipesCopies(p: string, u: string, d: string)
    requires '|' !in p
    ensures FillPipes(p + u, d) == p + FillPipes(u, d) && EmptyPipes(p + u) == EmptyPipes(u)
    decreases |p|
  {
    if p != [] {
      assert (p + u)[0] == p[0];
      assert (p + u)[1..] == p[1..] + u;
      assert p[0] != '|';
      assert '|' !in p[1..];
      FillPipesCopies(p[1..], u, d);
      assert [p[0]] + p[1..] == p;
    } else {
      assert p + u == u;
    }
  }

  /** `FillPipes` at a `|`: the slot is replaced exactly when no name character follows. */
  lemma FillPipesBar(u: string, d: string)
    ensures FillPipes("|" + u, d) == (if u == [] || !IsNameChar(u[0]) then d else "|") + FillPipes(u, d)
    ensures EmptyPipes("|" + u) == (if u == [] || !IsNameChar(u[0]) then 1 else 0) + EmptyPipes(u)
  {
    var v := "|" + u;
    assert v[1..] == u;
    if u != [] { assert v[1] == u[0]; }
  }

  lemma FillPipesNamed(m: ModItem, d: string, after: string)
    requires ValidMod(m) && m.alias != ""
    ensures FillPipes(ModItemText(m) + after, d) == ModItemText(m) + FillPipes(after, d)
    ensures EmptyPipes(ModItemText(m) + after) == EmptyPipes(after)
  {
    var u := PieceText(m) + after;
    assert ModItemText(m) + after == "|" + u;
    assert u[0] == m.alias[0];
    FillPipesBar(u, d);
    PieceNoBar(m);
    FillPipesCopies(PieceText(m), after, d);
  }

  /** `|.k` under `FillPipes`: the empty slot before the `.` takes the default. */
  lemma FillPipesUnnamedSub(k: string, name: string, after: string)
    requires AllName(k)
    ensures FillPipes("|" + ("." + (k + after)), "|" + name) == ModItemText(ModItem(name, Some(k))) + FillPipes(after, "|" + name)
    ensures EmptyPipes("|" + ("." + (k + after))) == 1 + EmptyPipes(after)
  {
    var d := "|" + name;
    ConsTail(".", k + after);
    FillPipesBar("." + (k + after), d);
    FillPipesCopies(".", k + after, d);
    NameExcludes(k, '|');
    FillPipesCopies(k, after, d);
    ModSubShape(name, k, FillPipes(after, d));
    Assoc("|", name, "." + (k + FillPipes(after, d)));
  }

  /** `|` alone under `FillPipes`: the slot takes the default. */
  lemma FillPipesUnnamedAlias(name: string, after: string)
    requires after == [] || !IsNameChar(after[0])
    ensures FillPipes("|" + after, "|" + name) == ModItemText(ModItem(name, None)) + FillPipes(after, "|" + name)
    ensures EmptyPipes("|" + after) == 1 + EmptyPipes(after)
  {
    FillPipesBar(after, "|" + name);
  }

  lemma FillPipesUnnamed(m: ModItem, name: string, after: string)
    requires ValidMod(m) && m.alias == "" && (after == [] || !IsNameChar(after[0]))
    ensures FillPipes(ModItemText(m) + after, "|" + name) == ModItemText(ModItem(name, m.sub)) + FillPipes(after, "|" + name)
    ensures EmptyPipes(ModItemText(m) + after) == 1 + EmptyPipes(after)
  {
    match m.sub
    case Some(k) =>
      ModSubShape("", k, after);
      assert "" + ("." + (k + after)) == "." + (k + after);
      FillPipesUnnamedSub(k, name, after);
    case None =>
      ModAliasShape("", after);
      assert "" + after == after;
      FillPipesUnnamedAlias(name, after);
  }

  /** One modifier item under `FillPipes`: an empty alias takes the default's name, and only then is a slot counted. */
  lemma FillPipesItem(m: ModItem, name: string, after: string)
    requires ValidMod(m) && (after == [] || !IsNameChar(after[0]))
    ensures FillPipes(ModItemText(m) + after, "|" + name) == ModItemText(FillItem(m, name)) + FillPipes(after, "|" + name)
    ensures EmptyPipes(ModItemText(m) + after) == (if m.alias == "" then 1 else 0) + EmptyPipes(after)
  {
    if m.alias == "" {
      FillPipesUnnamed(m, name, after);
    } else {
      FillPipesNamed(m, "|" + name, after);
    }
  }

  lemma FillModsCons(items: seq<ModItem>, name: string, t: string)
    requires items != []
    ensures ModText(FillMods(items, name)) + t
      == ModItemText(FillItem(items[0], name)) + (ModText(FillMods(items[1..], name)) + t)
  {
    assert FillMods(items, name) == [FillItem(items[0], name)] + FillMods(items[1..], name);
    ModTextCons(FillItem(items[0], name), FillMods(items[1..], name));
    Assoc(ModItemText(FillItem(items[0], name)), ModText(FillMods(items[1..], name)), t);
  }

  /** Nothing is filled in the end of a reference. */
  lemma FillPipesEnd(t: string, d: string)
    requires IsEnd(t)
    ensures FillPipes(t, d) == t && EmptyPipes(t) == 0
  {
    if t != "" {
      assert t[1..] == "";
      assert !EmptyPipeAt(t, 0);
    }
  }

  lemma {:induction false} FillPipesMods(items: seq<ModItem>, name: string, t: string)
    requires ValidMods(items) && IsName(name) && IsEnd(t)
    ensures FillPipes(ModText(items) + t, "|" + name) == ModText(FillMods(items, name)) + t
    ensures EmptyPipes(ModText(items) + t) == EmptyAliases(items)
    decreases |items|
  {
    if items == [] {
      assert ModText(items) + t == t;
      FillPipesEnd(t, "|" + name);
    } else {
      var rest := items[1..];
      var after := ModText(rest) + t;
      FillPipesMods(rest, name, t);
      Assoc(ModItemText(items[0]), ModText(rest), t);
      ModTextHead(rest, t);
      FillPipesItem(items[0], name, after);
      FillModsCons(items, name, t);
    }
  }

  /** The reference after `FillPipes`: the empty aliases take the default's name. */
  function FillRef(p: Ref, name: string): Ref {
    Ref(p.root, p.subs, FillMods(p.mods, name))
  }

  lemma {:induction false} SubTextNoBar(items: seq<SubItem>)
    requires ValidSubs(items)
    ensures '|' !in SubText(items)
    decreases |items|
  {
    if items != [] {
      SubTextNoBar(items[1..]);
      match items[0]
      case Index(k) => NameExcludes(k, '|');
      case Member(f) => NameExcludes(f, '|');
    }
  }

  lemma RootNoBar(r: Root)
    requires ValidRoot(r)
    ensures '|' !in RootText(r)
  {
    match r
    case Var(n) => NameExcludes(n, '|');
    case Static(c, _, m) => NameExcludes(c, '|'); NameExcludes(m, '|');
  }

  lemma {:induction false} FillModsValid(items: seq<ModItem>, name: string)
    requires ValidMods(items) && AllName(name)
    ensures ValidMods(FillMods(items, name))
    decreases |items|
  {
    if items != [] {
      FillModsValid(items[1..], name);
      assert FillMods(items, name)[1..] == FillMods(items[1..], name);
    }
  }

  /** After the default fills them, no alias is empty. */
  lemma {:induction false} FillModsNoEmpty(items: seq<ModItem>, name: string)
    requires name != ""
    ensures EmptyAliases(FillMods(items, name)) == 0
    decreases |items|
  {
    if items != [] {
      FillModsNoEmpty(items[1..], name);
      assert FillMods(items, name)[1..] == FillMods(items[1..], name);
    }
  }

  /**
    On a recognised reference, the default modifier `|name` fills exactly the
    empty aliases of the modifier chain, once each, and touches nothing else.
  */
  lemma FillPipesRef(p: Ref, name: string, t: string)
    requires ValidRef(p) && IsName(name) && (t == "" || t == "\n")
    ensures FillPipes(RefText(p) + t, "|" + name) == RefText(FillRef(p, name)) + t
    ensures EmptyPipes(RefText(p) + t) == EmptyAliases(p.mods)
    ensures ValidRef(FillRef(p, name)) && EmptyAliases(FillRef(p, name).mods) == 0
  {
    var head := RootText(p.root) + SubText(p.subs);
    RootNoBar(p.root);
    SubTextNoBar(p.subs);
    NotInConcat(RootText(p.root), SubText(p.subs), '|');
    Assoc(head, ModText(p.mods), t);
    FillPipesCopies(head, ModText(p.mods) + t, "|" + name);
    FillPipesMods(p.mods, name, t);
    Assoc(head, ModText(FillMods(p.mods, name)), t);
    FillModsValid(p.mods, name);
    FillModsNoEmpty(p.mods, name);
  }

  // ---------------------------------------------------------------------
  // The characters of a reference

  /** A character that no part of the grammar writes: neither a name character nor punctuation of a reference. */
  predicate Foreign(c: char) {
    !IsNameChar(c) && c != '$' && c != '&' && c != ':' && c != '.' && c != '-' && c != '>' && c != '|'
  }

  lemma {:induction false} SubTextExcludes(items: seq<SubItem>, c: char)
    requires ValidSubs(items) && Foreign(c)
    ensures c !in SubText(items)
    decreases |items|
  {
    if items != [] {
      SubTextExcludes(items[1..], c);
      match items[0]
      case Index(k) => NameExcludes(k, c);
      case Member(f) => NameExcludes(f, c);
    }
  }

  lemma {:induction false} ModTextExcludes(items: seq<ModItem>, c: char)
    requires ValidMods(items) && Foreign(c)
    ensures c !in ModText(items)
    decreases |items|
  {
    if items != [] {
      ModExcludesItem(items[0], c);
      ModTextExcludes(items[1..], c);
    }
  }

  lemma ModExcludesItem(m: ModItem, c: char)
    requires ValidMod(m) && Foreign(c)
    ensures c !in ModItemText(m)
  {
    NameExcludes(m.alias, c);
    if m.sub.Some? {
      NameExcludes(m.sub.value, c);
    }
  }

  lemma RootExcludes(r: Root, c: char)
    requires ValidRoot(r) && Foreign(c)
    ensures c !in RootText(r)
  {
    match r
    case Var(n) => NameExcludes(n, c);
    case Static(cls, _, m) => NameExcludes(cls, c); NameExcludes(m, c);
  }

  /** The text of a reference is made of name characters and its punctuation only. */
  lemma RefTextExcludes(p: Ref, c: char)
    requires ValidRef(p) && Foreign(c)
    ensures c !in RefText(p)
  {
    RootExcludes(p.root, c);
    SubTextExcludes(p.subs, c);
    ModTextExcludes(p.mods, c);
  }

  /** A newline anywhere but at the very end defeats both reference patterns. */
  lemma InnerNewlineNoMatch(v: string, isStatic: bool, i: nat)
    requires i + 1 < |v| && v[i] == '\n'
    ensures MatchRef(v, isStatic).None?
  {
    if MatchRef(v, isStatic).Some? {
      var p := MatchRef(v, isStatic).value;
      MatchRefSound(v, isStatic);
      NewlineBeforeEnd(RefText(p), v, i);
      RefTextExcludes(p, '\n');
    }
  }

  /** A newline before the last character of `a` or `a` + `"\n"` lies in `a`. */
  lemma NewlineBeforeEnd(a: string, v: string, i: nat)
    requires v == a || v == a + "\n"
    requires i + 1 < |v| && v[i] == '\n'
    ensures '\n' in a
  {
    assert a[i] == v[i];
  }
}
