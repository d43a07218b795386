# trix: a verified model of the template compiler

`trix` compiles template files with a small Smarty-like syntax into plain PHP.
The whole compiler is the one file `trix.php`, and it has three layers:

- `base_trix`: the modifier registries. One is per instance, one is shared by
  all instances. This layer also registers, looks up and applies modifiers.
- `parser_trix`: the conversion layer.
  - `parse` cuts a template into alternating text and tag bodies.
  - `deduce` turns one tag body into PHP. A body can be a comment, a literal
    block, a plain token, a variable or static-member reference with sub-keys
    and modifiers, or a block opener. Anything else is counted as a skip.
  - `process_default_modifiers` fills empty modifier slots with the default
    modifier.
  - `deduce_variable` builds the `<?php echo …; ?>` of a reference.
- `trix`: the object the user drives: `load`, `convert` and `save_compiled`.

The project has seven modules:

- `Wrappers`: `Option`.
- `Text`: character classes, PHP truthiness of strings, lazy search and `explode`.
- `Modifiers`: `base_trix`. Registration, lookup and application are
  functions. The shared registry is a `CommonModifiers` object.
- `Tokenizer`: `parse`. The split by the tag pattern is written out
  character by character.
- `References`: the grammar of `$var…` and `&Class…` bodies, the `sub`
  rewrite, the modifier split and the default-slot fill.
- `Directives`: `deduce` as a pure function, `DeduceSpec`. `Classify` finds
  the first grammar that matches, and `Deduced` carries the result and
  whether a skip is counted.
- `Compiler`: the class `Trix`, with the fields the source updates in place
  (`parts`, `defaultModifier`, `flagDebug`, `skipCount`, `modMap`).
  - `Convert` is a loop over the parts, as in the source, and is proved
    against `Converted` and `Skips`.
  - `Deduce` changes the skip counter and is proved against `DeduceSpec`.
  - Whole-conversion properties are proved about `Converted` and `Render`
    for any deduction function. `Deducer(cfg)` supplies the object's own.

Each pattern `deduce` uses is written out by hand. So is PCRE's `$` without
the `D` flag: it also matches before one final `"\n"`, which the model
captures as `IsEnd(t)`, meaning `t == ""` or `t == "\n"`.

## Model

| member | source | states |
|---|---|---|
| Modifiers.ModJoinTo | trix.php:75-89 | Registering entries in order gives `Joined(hive, entries)`. Each string entry is stored as a call, each array of at least two values whose first two are strings as a wrapper, and every other entry is dropped. |
| Modifiers.JoinedLastWins | trix.php:80-87 | After registration, the alias holds what its last well-formed entry stored, whatever came before. |
| Modifiers.JoinedKeepsOthers | trix.php:79-88 | An alias with no well-formed entry keeps exactly its previous presence and value. |
| Modifiers.CommonModifiers.AddCommonModifiers | trix.php:60-61 | The shared registry becomes the old one joined with the entries. |
| Modifiers.InstanceShadowsCommon | trix.php:54-55 | After `add_modifiers`, lookup finds the instance's last stored modifier for that alias, whatever the shared registry holds. |
| Modifiers.CommonIsFallback | trix.php:64-65 | For an alias the instance registry never held and no `add_modifiers` entry stored, lookup finds what the last well-formed `add_common_modifiers` entry for it stored. |
| Modifiers.NeverRegistered | trix.php:64-65 | An alias that neither registry held and no entry of either stored is not found. |
| Modifiers.Find | trix.php:64-65 | Definition: the instance registry's modifier for the alias, else the shared one, else none. Its properties are `InstanceShadowsCommon`, `CommonIsFallback` and `NeverRegistered`. |
| Modifiers.Apply | trix.php:68-72 | Definition: a wrapper puts its prefix and ending around the expression; a function name is called on it, with the sub-key as `['sub']` after the name. See `ApplyFrames`. |
| Modifiers.ApplyFrames | trix.php:68-72 | Applying a modifier puts the unchanged expression between a prefix and a suffix that do not depend on it. A wrapper ignores the sub-key. |
| Text.FindFrom | trix.php:108 | The lazy `.*?` end search returns the first occurrence at or after the start, or none when there is no occurrence. |
| Tokenizer.TagBody | trix.php:108 | A recognised tag at the front of the text is exactly `{` + body + `}`, and the body is one of the four alternatives of the pattern. |
| Tokenizer.Parse | trix.php:106-110 | The split has odd length, and every odd position holds a tag body the pattern accepts. |
| Tokenizer.ParseRoundTrip | trix.php:106-110 | Rejoining texts and bodies with their braces gives back the template exactly. |
| Tokenizer.ParseNoBrace | trix.php:106-110 | A template with no `{` becomes a single text part. |
| Tokenizer.ScanFirst | trix.php:106-110 | The scan's first text is the text so far plus the template up to the leftmost place where a tag matches; the next body is that tag's, and the rest is the scan of what follows it. |
| Tokenizer.ParseFirst | trix.php:106-110 | The split is made at the leftmost tag: the first part is the template up to it, no tag starts before it, and without a tag the whole template is one text. |
| Tokenizer.UnclosedComment | trix.php:108 | A `{*` with no `*}` after it and no later `{` is kept as text (the changelog note at trix.php:312). |
| Tokenizer.UnclosedLiteral | trix.php:108 | A `{literal}` followed by text with no `{` and no `}` (so no `{/literal}`) splits off as the tag `literal`, and the text after it is kept (the changelog note at trix.php:319). |
| Tokenizer.ParseTag | trix.php:106-110 | A text without `{` followed by a well-formed tag splits off as text and body, and the rest is parsed on its own. |
| References.MatchRef | trix.php:164-172 | Definition: the `$` pattern when the body is a variable, else the `&` pattern, both anchored with `$` before an optional final newline. Its properties are `MatchRefSound` and `MatchRefComplete`. |
| References.MatchRefSound | trix.php:164-172 | A matched body is the text of a well-formed reference, optionally followed by one newline, and the reference kind is the one asked for. |
| References.MatchRefComplete | trix.php:164-172 | Every well-formed variable or static member reference, with sub-keys and modifiers, is matched back to itself. |
| References.InnerNewlineNoMatch | trix.php:165-170 | A newline anywhere before the last character prevents a reference match. |
| References.IndexRewriteSubs | trix.php:215-217 | The `.key` rewrite turns each `.key` into `['key']` and leaves `->prop` unchanged. |
| References.ModPiecesOfText | trix.php:222 | Splitting the modifier group on `\|`, with empty pieces dropped, yields the non-empty modifier pieces in order. |
| References.SplitPieceOf | trix.php:226-227 | `explode('.')` of a piece gives back its alias and sub-key, and a piece without a dot has no sub-key. |
| References.FillPipesMods | trix.php:200-207 | Replacing each `\|` not followed by a name character with `\|name` fills exactly the empty modifier slots. The count equals the number of empty slots. |
| References.FillPipesRef | trix.php:200-207 | On a whole reference, the fill yields the reference with its empty aliases named. That reference is well-formed and has no empty slot left. |
| Directives.LiteralOf | trix.php:122-128 | `literal}raw{/literal`, with a non-empty `raw` and an optional final newline, captures `raw` verbatim. |
| Directives.TokenOutputs | trix.php:131-146 | The delimiter tokens give `{` and `}`, and the block closers and `else` give their framed PHP tags. |
| Directives.TokenDeduce | trix.php:141-147 | A body that is exactly a token gives its text and no skip. |
| Directives.TagOutcomes | trix.php:117-128 | A comment tag gives nothing and no skip. `{*}` and an empty literal are skipped. A non-empty literal gives its raw text. |
| Directives.StarUnrecognized | trix.php:118 | The body `*` matches no grammar. |
| Directives.ClassifyOpener | trix.php:184-186 | A body the opener pattern matches matches none of the earlier grammars. |
| Directives.OpenerDeduce | trix.php:185-190 | `kw ws expr` becomes `<?php kw( expr ): ?>`, with `each` written as `foreach` and no skip. |
| Directives.ReferenceDeduce | trix.php:173-181 | With no default modifier, or no empty slot, a reference becomes the echo of its base expression, its rewritten sub-keys and its modifiers applied in order. |
| Directives.Classify | trix.php:112-191 | Definition: the grammars of `deduce` tried in order (comment, literal, token, `$` reference, `&` reference, block opener), or unrecognised. Its properties are the `Directives` lemmas. |
| Directives.ProcessDefaultModifiers | trix.php:200-207 | Definition: the number of `\|` not followed by a name character, and the body with each of them replaced by the default, taken literally, when there is one. Its properties are `References.FillPipesMods` and `References.FillPipesRef`. |
| Directives.DeduceSpec | trix.php:112-198 | Definition: what `deduce` returns and whether it counts a skip, for each kind of `Classify`, with the default refill of trix.php:173-180. |
| Directives.BareLiteralUnrecognized | trix.php:123 | The body `literal` left by an unclosed `{literal}` matches no grammar, so `deduce` counts it as a skip (trix.php:194). |
| Directives.IsDefaultModifier | trix.php:246 | Definition: the default modifier the check of `load` evidently intends, `\|` followed by one or more name characters and nothing after. |
| Directives.DefaultDeduce | trix.php:173-180 | With a default of the form `\|name`, a reference gives the same as the reference with its empty slots filled, so it is never skipped. |
| Directives.SkipOnlyUnrecognized | trix.php:173-194 | With no default or one of the form `\|name`, a skip is counted exactly for bodies no grammar recognises. `null` comes back exactly for those and for comments. |
| Directives.RefNeverSkipped | trix.php:175-180 | With no default or one of the form `\|name`, a reference is never skipped and always has a result. |
| Directives.LastOutermost | trix.php:224-231 | The last applied modifier is the outermost: its prefix and suffix enclose the rest of the chain. |
| Directives.UnresolvedIgnored | trix.php:229-230 | A modifier that is not found, or is found falsy, can be deleted from the chain without changing the result. |
| Directives.CallChain | trix.php:224-231 | Two call modifiers give `f2( f1( e ) )`. |
| Directives.PiecesOfItems | trix.php:222-231 | Applying the split pieces equals applying the matched modifier items in order, and a bare `\|` does nothing. |
| Directives.SubCodeOf | trix.php:215-217 | The sub-key code is the `['key']` / `->prop` rewrite of the matched items, and is empty when there are none. |
| Directives.ExpressionOfRef | trix.php:209-231 | The expression of a well-formed reference is its base, then its sub-key code, then its modifiers applied in order. |
| Compiler.Trix.constructor | trix.php:241-251 | A new object holds the parsed template, or no parts when there is no readable file. The default is kept only when it passes the check as written: `\|name`, optionally followed by one newline; otherwise it is empty. The debug flag is off and the instance registry is empty. |
| Compiler.Trix.Load | trix.php:244-251 | The parts become the parsed template, or empty. A default passing the check as written (`\|name`, optionally followed by one newline) replaces the old one, otherwise the old one stays. Nothing else changes. |
| Compiler.Trix.AddModifiers | trix.php:54-55 | The instance registry becomes the old one joined with the entries, and nothing else changes. |
| Compiler.Trix.DeduceVariable | trix.php:209-236 | Returns the echo of the reference's expression, with the body quoted in a comment when debug is on. |
| Compiler.Trix.ApplyModifiers | trix.php:222-231 | The loop over the pieces computes the modifiers applied in order. |
| Compiler.Trix.DeduceReference | trix.php:173-181 | Gives the reference outcome of `DeduceSpec`. The counter grows by one exactly when the refilled body no longer matches. |
| Compiler.Trix.Deduce | trix.php:112-198 | The result is `DeduceSpec` of the settings. The skip counter grows by one exactly when that outcome is a skip. Nothing else changes. |
| Compiler.Trix.Convert | trix.php:253-261 | The counter is reset, then every odd, non-empty part is deduced in place, with `null` written as nothing. The parts become `Converted`, the counter becomes `Skips`, and the settings are unchanged. |
| Compiler.ConvertedRender | trix.php:253-266 | The saved parts are the template with each tag replaced by what its body deduces to. |
| Compiler.ConvertedShift | trix.php:256-258 | Converting a template is converting its first text and tag, then converting the rest on its own. |
| Compiler.CompiledTemplate | trix.php:106-110 | For any template, the parts rejoin to it, and converting then saving replaces each tag in place by its output. |
| Compiler.TemplateWithoutTags | trix.php:253-266 | A template without `{` compiles to itself with no skip. |
| Compiler.UnclosedLiteralTemplate | trix.php:253-266 | A template `{literal}` followed by text without braces compiles to that text, with one skip. |
| Compiler.ConvertedKeeps | trix.php:256-258 | Text parts and empty bodies are left unchanged by `convert`. |
| Compiler.SkipsZero | trix.php:253-258 | With no default or one of the form `\|name`, the skip count is zero exactly when every deduced body is recognised by some grammar. |
| Compiler.SampleTag | trix.php:18-34 | The documented sample: `{$fruit\|}`, with default `\|escape` and the shared `escape` wrapper, becomes `<?php echo htmlspecialchars($fruit, ENT_COMPAT \| ENT_HTML5, 'UTF-8', true); ?>` with no skip. |
| Compiler.DefaultCheckAsWritten | trix.php:246 | Definition: the check of `load` as written, `\|name` or `\|name` followed by one newline, because `$` without the `D` flag also matches before a final newline. |
| Compiler.Trix.Compiled | trix.php:263-267 | Definition: what `save_compiled` writes, the parts concatenated. |
| Compiler.CheckedDefaultLiteral | trix.php:246 | A default that passes the check of `load` contains neither `$` nor `\`, so `preg_replace` at trix.php:203 finds no replacement reference in it. |
| Compiler.DefaultNewlineSkips | trix.php:246 | The check as written accepts `"\|escape\n"`. With that default, the reference `$a\|\|` is skipped. |

## Left out

- File access: `load` takes the template's contents as an `Option`, with `None` standing for a missing, unreadable or non-string file. `is_readable`, `file_get_contents` and `file_put_contents` are not modelled. `save_compiled` is modelled as the concatenation `Trix.Compiled()`.
- Modifiers.ModJoinTo: PHP arrays are modelled as a list of alias and value entries. The model leaves out the conversion of digit-string keys to integers and a `$map` that is not an array, which registers nothing. It also leaves out the `!is_array($hive)` reset, because a registry here is always a map.
- The shared registry `base_trix::$mod_map_common` is static in PHP. Here it is one `CommonModifiers` object that the `Trix` objects share by reference.
- Directives.ProcessDefaultModifiers: the default is put in literally. `preg_replace` would expand the replacement references `$n`, `${n}` and `\n` in it. A default set by `load` contains neither `$` nor `\` (`Compiler.CheckedDefaultLiteral`), so only a default assigned directly to the public property `default_modifier` can differ. For example, `$0` leaves `$a|` as it is, while the model gives `$a$0`, which is skipped.
- References.FillPipes: each empty slot receives the default as it is written, for the same reason as `Directives.ProcessDefaultModifiers` above.
- Compiler.Trix.Load: a `$default_modifier` that is not a string is not modelled, because the parameter is a `string`.
- Tokenizer.Parse: invalid UTF-8 makes `preg_split` under the `u` flag fail, so `$parts` becomes `false`. That failure is not modelled, because strings are sequences of characters.
- Compiler.Trix.Convert: `mb_strlen($v)` is read as "non-empty". The `u` flag's rejection of invalid UTF-8 is not modelled either.
- Compiler.Trix.Convert: a `null` part, written by `deduce` for comments and skips, is the empty string. That is how `file_put_contents` writes it.
- `skip_count` is `null` before the first `convert`. The model starts it at zero.
- The PCRE engine in general is not modelled. Only the patterns `trix.php` uses are written out, with `\s` under the `u` flag read as the separators of category Z together with the horizontal and vertical white space (`\h`, `\v`).
- The commented-out alternative at trix.php:150-162 is not code and is not modelled.
- The generated PHP is never run, so its meaning is not modelled.
- `{*}` is no comment, because the comment pattern needs two stars, so the code counts it as a skip (`Directives.StarUnrecognized`). Unresolved modifiers are dropped without being counted (`Directives.UnresolvedIgnored`).

## Findings

| source | as written | input that shows it | evidently intended | confidence | as-written member | corrected member |
|---|---|---|---|---|---|---|
| trix.php:246 | `~^\|[a-zA-Z0-9_]+$~u` has no `D` flag, so `$` also matches before a final newline, and `load` accepts a default modifier ending in `"\n"`. | default `"\|escape\n"`, tag `{$a\|\|}`: the filled body `$a\|escape\n\|escape\n` matches no reference pattern, so the tag is dropped and counted as a skip. | accept only `\|` followed by name characters (`Directives.IsDefaultModifier`), which makes a reference with empty slots never skip (`Directives.RefNeverSkipped`); `Compiler.Trix.Load` keeps the check as written | not executed | Compiler.DefaultNewlineSkips | Directives.RefNeverSkipped |
