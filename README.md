# Minecraft start hook: configuration patching, in Dafny

The start hook of the Minecraft server image runs before the server starts. It reads
a JSON configuration whose `files` dict maps each file path, relative to
`/home/container`, to a parser name and a dict of rules, and it rewrites each of those
files:

* **YAML** (`yaml`, `yml`): each rule is a dotted path such as `a.b[2].c`, and its
  value is written there. Missing dicts are created and lists are padded. A missing
  file starts as `{}`.
* **properties**: the existing `key=value` lines are read into an ordered dict. Each
  rule sets a key, and the dict is written back one `key=value` line per entry.
* **file** (generic): a line whose stripped text starts with a rule key is replaced
  by that rule's value. The value of every key that replaced no line is appended.

Before a rule value is written, `{{name}}` placeholders are expanded from the
environment. A name may be a logical alias such as `server.build.default.port` for
`SERVER_PORT`. A string that then reads `true`/`false` (any case) or a run of digits
becomes a bool or an int.

The model is split into these modules:
- `Text`: the Python string primitives (`strip`, `startswith`, `lower`, `isdigit`, `int`, `str`).
- `Values`: Python values and insertion-ordered dicts.
- `FileText`: files opened in text mode. Reading translates `\r\n` and `\r` to `\n`
  and cuts the text after every `\n` (`readlines`, or a `for` loop over the file);
  `writelines` and a run of `write` calls put the pieces one after the other.
- `Coerce`: `to_native_type`.
- `Expansion`: `expand_variables` and `VARIABLE_MAPPING`.
- `Paths`: the path split and the `name[index]` pattern.
- `Nested`: `set_nested_value`, as a function on the value tree.
- `YamlPatch`, `PropertiesPatch` and `GenericPatch`: the three rule loops. Each is a
  method with loops, proved equal to a specification function, with lemmas about that
  function. The properties and generic patchers work from the text of the file and
  produce the text written back.
- `Hook`: the loop of `main`. It works over a file system given as a map from path to
  the text of the file, with YAML loading and dumping as function parameters.

A Python exception is modelled as a `Result.Err`, because the hook catches none of
them except `FileNotFoundError` on reading, which is modelled as a missing file, and an
exception ends the run. A run of `main` ends `Done` or `Raised`, and
either way it carries the files as the entries that completed wrote them.

## Model

| member | source | states |
|---|---|---|
| Text.TrimStart | yolks/minecraft/runtime/start_hook.py:117 | `lstrip()`: never longer than its argument; `TrimStartSpec` states what it removes |
| Text.IsSpace | yolks/minecraft/runtime/start_hook.py:117 | the characters `strip()` removes (also at line 152): ASCII space, tab and line breaks, `\x1c` to `\x1f`, `\x85`, `\xa0` and the Unicode space separators |
| Text.TrimStartSpec | yolks/minecraft/runtime/start_hook.py:117 | `lstrip` removes exactly the leading whitespace run: the result is a suffix that starts with a non-space or is empty, and everything dropped is whitespace |
| Text.TrimEnd | yolks/minecraft/runtime/start_hook.py:117 | `rstrip()`: never longer than its argument; `TrimEndSpec` states what it removes |
| Text.TrimEndSpec | yolks/minecraft/runtime/start_hook.py:117 | `rstrip` removes exactly the trailing whitespace run |
| Text.Strip | yolks/minecraft/runtime/start_hook.py:117 | `str.strip()`: both whitespace runs removed; `StripResult` states what it leaves |
| Text.StripResult | yolks/minecraft/runtime/start_hook.py:117 | the result of `strip` has no whitespace at either end, and stripping is idempotent |
| Text.StripStripped | yolks/minecraft/runtime/start_hook.py:124 | `strip` leaves text without surrounding whitespace unchanged |
| Text.StripPaddedRight | yolks/minecraft/runtime/start_hook.py:152 | stripping a stripped text followed by whitespace (such as a line break) gives the text |
| Text.StripWithin | yolks/minecraft/runtime/start_hook.py:117 | `strip` keeps only characters of its argument, so it adds no line break |
| Text.StripNewline | yolks/minecraft/runtime/start_hook.py:152 | a line's final `\n` does not change its stripped text |
| Text.TrimStartSnoc | yolks/minecraft/runtime/start_hook.py:152 | left-stripping a text followed by whitespace keeps that whitespace, unless the text is all whitespace |
| Text.Lower | yolks/minecraft/runtime/start_hook.py:29 | `lower()` keeps the length and lowers each character |
| Text.DigitsValue | yolks/minecraft/runtime/start_hook.py:35 | `int()` of a run of ASCII digits, read left to right in base ten; `DecimalStringValue` shows it inverts `str()` |
| Text.DecimalStringValue | yolks/minecraft/runtime/start_hook.py:35 | `int(str(n)) == n` for every natural number |
| Text.DecimalString | yolks/minecraft/runtime/start_hook.py:129 | `str(n)` is a digit run without a leading zero unless `n` is 0 |
| Text.IndexOf | yolks/minecraft/runtime/start_hook.py:123 | the position where `split("=", 1)` cuts: an `=`, with none before it |
| Text.StartsWith | yolks/minecraft/runtime/start_hook.py:155 | `str.startswith`: the text begins with the prefix (also the `#` test at line 120) |
| Text.IsDigits | yolks/minecraft/runtime/start_hook.py:34 | `str.isdigit()` on ASCII text: a non-empty run of `0`-`9` |
| Text.IntString | yolks/minecraft/runtime/start_hook.py:129 | `str()` of an int: decimal digits, with `-` before a negative number (also at line 156) |
| Values.Lookup | yolks/minecraft/runtime/start_hook.py:66 | `d.get(k)` is `None` exactly when `k` is not a key of the dict |
| Values.Put | yolks/minecraft/runtime/start_hook.py:129 | `d[k] = v`: `k` reads back `v`, every other key reads as before, an existing key keeps its place and a new one is appended |
| Values.PutNoDup | yolks/minecraft/runtime/start_hook.py:129 | assignment keeps the keys distinct |
| Values.KeysOfNoDup | yolks/minecraft/runtime/start_hook.py:66 | in a dict with distinct keys, each key reads its own entry |
| Values.PutPut | yolks/minecraft/runtime/start_hook.py:129 | assigning a key twice equals assigning only the second value |
| Values.PutSame | yolks/minecraft/runtime/start_hook.py:129 | assigning the value a key already holds changes nothing |
| Values.PutValues | yolks/minecraft/runtime/start_hook.py:124-129 | every value stored after an assignment is the new value or one stored before |
| Values.PyStr | yolks/minecraft/runtime/start_hook.py:129 | `str()` of a string is the string itself |
| Values.Truthy | yolks/minecraft/runtime/start_hook.py:184 | Python truthiness as `not parser_type or not find_rules` tests it: `None`, `False`, `0`, `""`, `[]` and `{}` are false |
| FileText.Universal | yolks/minecraft/runtime/start_hook.py:139-140 | reading in text mode leaves no `\r`: `\r\n` and a lone `\r` each become `\n` |
| FileText.UniversalPlain | yolks/minecraft/runtime/start_hook.py:139-140 | text without `\r` is read as it is |
| FileText.LineEnd | yolks/minecraft/runtime/start_hook.py:140 | the first line runs up to and including the first `\n`, or to the end of the text when it holds none |
| FileText.LineEndAt | yolks/minecraft/runtime/start_hook.py:140 | a position that closes the first `\n`-free run at a `\n` or at the end is where the first line ends |
| FileText.SplitLines | yolks/minecraft/runtime/start_hook.py:140 | `readlines` on translated text: each piece keeps its `\n`; `SplitShape` and `JoinSplit` state what it returns |
| FileText.ReadLines | yolks/minecraft/runtime/start_hook.py:115-116 | the lines of a file as `readlines` or a `for` loop over it yields them; `ReadLinesShape` and `ReadJoin` state what they are |
| FileText.ReadLinesShape | yolks/minecraft/runtime/start_hook.py:115-116 | the lines read are non-empty, free of `\r`, hold `\n` only at their end, and all but the last end with it |
| FileText.SplitShape | yolks/minecraft/runtime/start_hook.py:140 | the same for the pieces of text without `\r` |
| FileText.JoinSplit | yolks/minecraft/runtime/start_hook.py:140 | the pieces, written back one after the other, give the text: nothing is lost or added |
| FileText.FileLines | yolks/minecraft/runtime/start_hook.py:138-145 | a missing file reads as no lines, an existing one as the lines `readlines` returns for its text |
| FileText.Join | yolks/minecraft/runtime/start_hook.py:170-171 | `writelines` writes the lines one after the other; `JoinCons`, `JoinSnoc` and `ReadJoin` state how |
| FileText.JoinCons | yolks/minecraft/runtime/start_hook.py:170-171 | writing a line ahead of others writes its text first |
| FileText.JoinSnoc | yolks/minecraft/runtime/start_hook.py:132-133 | one more `write` adds its text at the end |
| FileText.ReadJoin | yolks/minecraft/runtime/start_hook.py:170-171 | lines as `readlines` returns them, written and read again, come back as they were |
| FileText.JoinNoReturn | yolks/minecraft/runtime/start_hook.py:170-171 | writing such lines writes no `\r` |
| FileText.SplitJoin | yolks/minecraft/runtime/start_hook.py:140 | the written text of such lines splits back into the same lines |
| FileText.LineStrip | yolks/minecraft/runtime/start_hook.py:117 | a line as read holds no line break once stripped |
| FileText.LastLineEnded | yolks/minecraft/runtime/start_hook.py:139-140 | only an empty file reads as no lines, and the last line read ends with `\n` exactly when the text ends with `\n` or `\r` |
| FileText.UniversalLast | yolks/minecraft/runtime/start_hook.py:139-140 | the translated text ends with `\n` exactly when the text ends with `\r` or `\n` |
| FileText.SplitLinesLast | yolks/minecraft/runtime/start_hook.py:140 | the last piece of a non-empty text ends with `\n` exactly when the text does |
| FileText.JoinAppend | yolks/minecraft/runtime/start_hook.py:170-171 | writing two runs of lines writes the first run's text, then the second's |
| FileText.JoinGlue | yolks/minecraft/runtime/start_hook.py:168-171 | a line written right after one without `\n` writes the same text as the two joined into one line |
| Coerce.LowerKeepsDigits | yolks/minecraft/runtime/start_hook.py:29-34 | lowering does not change whether a text is a digit run, and leaves a digit run as it is |
| Coerce.ToNative | yolks/minecraft/runtime/start_hook.py:26-36 | non-strings pass through; a string becomes `True` exactly when it lowers to `true`, `False` exactly when it lowers to `false`, an int exactly when it is a digit run (with that run's value); anything else stays the same string |
| Coerce.ToNativeLeadingZeros | yolks/minecraft/runtime/start_hook.py:34-35 | `007` becomes the int 7 |
| Coerce.ToNativeTrue | yolks/minecraft/runtime/start_hook.py:29-31 | `TrUe` becomes `True`: case is ignored |
| Coerce.ToNativeFalse | yolks/minecraft/runtime/start_hook.py:29-33 | `FALSE` becomes `False` |
| Coerce.ToNativeUnsigned | yolks/minecraft/runtime/start_hook.py:34-36 | the empty string, ` 1` and `-1` are not digit runs and stay strings |
| Coerce.ToNativeDecimal | yolks/minecraft/runtime/start_hook.py:34-35 | the text of every natural number coerces back to that number |
| Coerce.ToNativePort | yolks/minecraft/runtime/start_hook.py:34-35 | `25565` becomes the int 25565 |
| Coerce.ToNativeKeepsText | yolks/minecraft/runtime/start_hook.py:29-36 | text containing `=` stays a string |
| Coerce.ToNativeIdempotent | yolks/minecraft/runtime/start_hook.py:26-28 | a coerced value is not coerced any further |
| Coerce.ToNativeAsWritten | yolks/minecraft/runtime/start_hook.py:34-35 | the coercion with `str.isdigit` on Latin-1 text raises exactly when the lowered text is a non-empty run of digits holding a superscript `¹`, `²` or `³`, and otherwise agrees with the corrected one |
| Coerce.SuperscriptDigitRaises | yolks/minecraft/runtime/start_hook.py:34-35 | `²` passes `isdigit` and makes `int()` raise, while the corrected coercion keeps it a string |
| Expansion.Resolve | yolks/minecraft/runtime/start_hook.py:42-46 | the replacement for one placeholder: the variable named by its stripped name, through the alias table, or the whole placeholder when that variable is unset; `SubstPlaceholder` states it |
| Expansion.EnvName | yolks/minecraft/runtime/start_hook.py:44 | `VARIABLE_MAPPING.get(placeholder) or placeholder`; `PortAlias` states it |
| Expansion.Aliases | yolks/minecraft/runtime/start_hook.py:12-18 | `VARIABLE_MAPPING`: the five logical names and the variables they stand for |
| Expansion.Subst | yolks/minecraft/runtime/start_hook.py:48 | `re.sub` of `{{name}}` placeholders in one left-to-right pass; `SubstMatch`, `SubstFirstChar`, `SubstSinglePass` state it |
| Expansion.CloseAt | yolks/minecraft/runtime/start_hook.py:48 | the scan for `}` stays within the text |
| Expansion.CloseAtSpec | yolks/minecraft/runtime/start_hook.py:48 | the scan stops at the first `}` at or after the start, or at the end when there is none |
| Expansion.MatchLen | yolks/minecraft/runtime/start_hook.py:48 | a placeholder match is empty or at least five characters long and fits the text |
| Expansion.MatchLenShape | yolks/minecraft/runtime/start_hook.py:48 | a match is `{{`, a non-empty run without `}`, then `}}` |
| Expansion.MatchPlaceholder | yolks/minecraft/runtime/start_hook.py:48 | `{{name}}` with a non-empty name free of `}` matches in full |
| Expansion.NoMatchWithoutBrace | yolks/minecraft/runtime/start_hook.py:48 | no match starts at a character other than `{` |
| Expansion.SubstFirstChar | yolks/minecraft/runtime/start_hook.py:48 | where no match starts, the character is copied and the scan moves on by one |
| Expansion.SubstLiteral | yolks/minecraft/runtime/start_hook.py:48 | text without `{` is copied and the scan resumes after it |
| Expansion.SubstNoBrace | yolks/minecraft/runtime/start_hook.py:48 | a string without `{` is left as it is |
| Expansion.SubstPlaceholder | yolks/minecraft/runtime/start_hook.py:42-48 | `{{name}}` is replaced by the variable that its stripped name, resolved through the alias table, names; an unset variable leaves the placeholder as written |
| Expansion.SubstMatch | yolks/minecraft/runtime/start_hook.py:42-48 | a match is replaced by its resolution and the scan resumes right after it |
| Expansion.SubstUnsetEnv | yolks/minecraft/runtime/start_hook.py:45-46 | with no variable set, every string is left as written |
| Expansion.Expand | yolks/minecraft/runtime/start_hook.py:39-55 | strings are substituted and then coerced as a whole; dicts keep their keys and order with every value expanded; lists keep their length with every item expanded; other values pass through |
| Expansion.ExpandWellFormed | yolks/minecraft/runtime/start_hook.py:50-51 | expansion keeps every dict's keys distinct |
| Expansion.ExpandEnvIndependent | yolks/minecraft/runtime/start_hook.py:39-55 | a value without `{` expands the same way under every environment |
| Expansion.SubstWhole | yolks/minecraft/runtime/start_hook.py:42-48 | a string that is exactly one placeholder becomes its resolution |
| Expansion.ExpandWholePlaceholder | yolks/minecraft/runtime/start_hook.py:42-49 | a value that is exactly one placeholder for a set variable becomes the coercion of that variable's text |
| Expansion.ExpandEmbedded | yolks/minecraft/runtime/start_hook.py:48-49 | a value with a brace-free prefix containing `=` substitutes the rest and stays a string |
| Expansion.PortAlias | yolks/minecraft/runtime/start_hook.py:12-18 | `server.build.default.port` stands for `SERVER_PORT` |
| Expansion.SubstWholeSet | yolks/minecraft/runtime/start_hook.py:42-48 | a placeholder holding exactly a set, unaliased, stripped name becomes that variable's text |
| Expansion.SubstWholePort | yolks/minecraft/runtime/start_hook.py:42-48 | `{{SERVER_PORT}}` with `SERVER_PORT=25565` becomes `25565` |
| Expansion.ExpandWholePort | yolks/minecraft/runtime/start_hook.py:39-49 | `{{SERVER_PORT}}` with `SERVER_PORT=25565` becomes the int 25565 |
| Expansion.ExpandTrue | yolks/minecraft/runtime/start_hook.py:48-49 | the rule value `true` expands to the bool `True` |
| Expansion.ExpandSeven | yolks/minecraft/runtime/start_hook.py:48-49 | the rule value `007` expands to the int 7 |
| Expansion.SubstSinglePass | yolks/minecraft/runtime/start_hook.py:48 | text inserted by a substitution is not scanned again |
| Expansion.ExpandSinglePass | yolks/minecraft/runtime/start_hook.py:48-49 | a variable whose value is itself a placeholder is inserted as written |
| Expansion.ExpandScalar | yolks/minecraft/runtime/start_hook.py:39-55 | expansion turns a scalar into a scalar |
| Expansion.ExpandedText | yolks/minecraft/runtime/start_hook.py:127-129 | the written text of a non-string value is its `str()` |
| Expansion.ExpandedTextCoerces | yolks/minecraft/runtime/start_hook.py:127-129 | coercion shows in the written text: `true` is written `True`, `007` is written `7` |
| Paths.ClosesFirstMeaning | yolks/minecraft/runtime/start_hook.py:59 | the lookahead `(?![^\[]*\])` fails exactly when some `]` ahead has no `[` before it |
| Paths.ClosesFirst | yolks/minecraft/runtime/start_hook.py:59 | the lookahead `(?![^\[]*\])` fails: a `]` comes before any `[`; `ClosesFirstMeaning` states it |
| Paths.IsCut | yolks/minecraft/runtime/start_hook.py:59 | a dot the split cuts at: one whose lookahead finds no `]` before a `[` |
| Paths.FirstCut | yolks/minecraft/runtime/start_hook.py:59 | the next split point lies between the start of the scan and the end |
| Paths.FirstCutSpec | yolks/minecraft/runtime/start_hook.py:59 | the next split point is a cut, and no cut lies before it |
| Paths.SplitPath | yolks/minecraft/runtime/start_hook.py:59 | `re.split` gives at least one piece |
| Paths.SplitJoin | yolks/minecraft/runtime/start_hook.py:59 | joining the pieces with dots gives the path back |
| Paths.SplitKeepsBracketedDots | yolks/minecraft/runtime/start_hook.py:59 | every dot left inside a piece is followed within the piece by a `]` before any `[` |
| Paths.ClosesBeforeCut | yolks/minecraft/runtime/start_hook.py:59 | a dot before a cut whose lookahead holds finds its `]` before that cut |
| Paths.NoBracketsSplitsEveryDot | yolks/minecraft/runtime/start_hook.py:59 | a path without `]` is cut at every dot |
| Paths.ClosesFirstHasBracket | yolks/minecraft/runtime/start_hook.py:59 | a lookahead that holds has a `]` to stand on |
| Paths.PieceInJoin | yolks/minecraft/runtime/start_hook.py:59 | every character of a piece occurs in the joined path |
| Paths.FirstCutAt | yolks/minecraft/runtime/start_hook.py:59 | the first cut is the position that is a cut with no cut before it |
| Paths.SplitNoDot | yolks/minecraft/runtime/start_hook.py:59 | a path without dots is a single piece |
| Paths.SplitAtDot | yolks/minecraft/runtime/start_hook.py:59 | a dot whose lookahead fails splits, after a first piece without cuts |
| Paths.SplitAtPlainDot | yolks/minecraft/runtime/start_hook.py:59 | a dot-free first piece followed by a splitting dot becomes its own piece |
| Paths.SplitExample | yolks/minecraft/runtime/start_hook.py:59 | `a.b[2].c` splits into `a`, `b[2]`, `c` |
| Paths.SplitBracketExample | yolks/minecraft/runtime/start_hook.py:59 | the dot inside `a[x.y].b` does not split |
| Paths.WordLen | yolks/minecraft/runtime/start_hook.py:62 | the `\w+` run fits the text |
| Paths.IsWordChar | yolks/minecraft/runtime/start_hook.py:62 | `\w` on ASCII: letters, digits and `_` |
| Paths.DigitLen | yolks/minecraft/runtime/start_hook.py:62 | the `\d+` run fits the text |
| Paths.WordLenSpec | yolks/minecraft/runtime/start_hook.py:62 | the `\w+` run is the longest prefix of word characters |
| Paths.DigitLenSpec | yolks/minecraft/runtime/start_hook.py:62 | the `\d+` run is the longest prefix of digits |
| Paths.ParseSegment | yolks/minecraft/runtime/start_hook.py:62-65 | `re.match(r"(\w+)\[(\d+)\]", key)` on one piece: a slot of that name and index, or a plain key; `ParseSegmentShape`, `ParseSegmentSlot` and `ParseKey` state it |
| Paths.ParseSegmentShape | yolks/minecraft/runtime/start_hook.py:62-63 | a key is the whole piece; a slot's name is a non-empty word run followed by `[`, digits and `]` in the piece |
| Paths.WordLenAt | yolks/minecraft/runtime/start_hook.py:62 | word characters up to the first non-word character make the whole `\w+` run |
| Paths.DigitLenAt | yolks/minecraft/runtime/start_hook.py:62 | digits up to the first non-digit make the whole `\d+` run |
| Paths.ParseSegmentSlot | yolks/minecraft/runtime/start_hook.py:62-65 | a piece that starts with word characters, `[`, digits and `]` is the slot of that name and `int(digits)`, whatever follows (a prefix match) |
| Paths.ParseKey | yolks/minecraft/runtime/start_hook.py:71-74 | a piece without `[` is a plain key |
| Nested.SetPath | yolks/minecraft/runtime/start_hook.py:58-87 | `set_nested_value(data, path, value)`: the path split into pieces, each parsed, then written; `SetGet`, `SetFrame` and `SetOkIff` state it |
| Nested.Get | yolks/minecraft/runtime/start_hook.py:66-85 | reading a path the way the write walks it (`d[k]` for a key, `d[n][i]` for a slot); used to state what a write changes |
| Nested.ChildMap | yolks/minecraft/runtime/start_hook.py:72-74 | descending through a key always reaches a dict |
| Nested.ListAt | yolks/minecraft/runtime/start_hook.py:66-67 | the list under a name, or `[]` when the entry is missing or not a list |
| Nested.Next | yolks/minecraft/runtime/start_hook.py:66-74 | the level a segment descends into: the dict under a key (`{}` if it was not a dict), or the item at the index of the padded list |
| Nested.Pad | yolks/minecraft/runtime/start_hook.py:68-69 | padding grows a list to the needed length, keeps its items and fills the rest |
| Nested.Segments | yolks/minecraft/runtime/start_hook.py:59-62 | each piece is parsed independently, in order |
| Nested.Set | yolks/minecraft/runtime/start_hook.py:58-87 | a successful write yields a dict |
| Nested.SetOkIff | yolks/minecraft/runtime/start_hook.py:58-87 | the write raises exactly when a level reached is not a dict |
| Nested.FreshDescendable | yolks/minecraft/runtime/start_hook.py:95-100 | nothing written under a fresh `{}` raises |
| Nested.KeysOnlyDescendable | yolks/minecraft/runtime/start_hook.py:71-74 | writing through keys only into a dict never raises |
| Nested.SetGet | yolks/minecraft/runtime/start_hook.py:58-87 | after a successful write, reading the same path gives the written value |
| Nested.GetFresh | yolks/minecraft/runtime/start_hook.py:58-87 | no path reads anything from `{}` |
| Nested.SetOthers | yolks/minecraft/runtime/start_hook.py:58-87 | a write changes only the entry under the first name |
| Nested.NextAfterSet | yolks/minecraft/runtime/start_hook.py:61-74 | below the first segment, the write continues into the level the walk descended into |
| Nested.GetViaNext | yolks/minecraft/runtime/start_hook.py:61-74 | reading below a dict goes through the level the walk would descend into |
| Nested.SetFrameHead | yolks/minecraft/runtime/start_hook.py:58-87 | a path that starts with another name reads the same after the write |
| Nested.SetFrame | yolks/minecraft/runtime/start_hook.py:58-87 | a path that follows the written one for some levels and then names another key or list reads the same after the write |
| Nested.SetFrameSlotHead | yolks/minecraft/runtime/start_hook.py:76-85 | another index of the list written at the first level reads the same after the write, except an index that padding created, which reads as the filler |
| Nested.SetFrameSlot | yolks/minecraft/runtime/start_hook.py:61-85 | a path that follows the written one for some levels and then names another index of the same list reads the same after the write, except an index that padding created: it reads as the filler, `None` for a final slot and `{}` for one walked through |
| Nested.SetSlotShape | yolks/minecraft/runtime/start_hook.py:76-85 | a slot write leaves a list of length `max(old, index + 1)` that keeps the other old items and is padded with `None` (final slot) or `{}` (walked through); a final slot holds the value |
| Nested.SetKeyShape | yolks/minecraft/runtime/start_hook.py:71-74 | a key walked through holds a dict afterwards; when no dict stood there, the new dict holds exactly the next name |
| Nested.FreshKeys | yolks/minecraft/runtime/start_hook.py:58-87 | writing into `{}` succeeds and creates exactly the first name |
| Nested.SetTwice | yolks/minecraft/runtime/start_hook.py:58-87 | writing the same path twice equals writing only the second value |
| Nested.SetWellFormed | yolks/minecraft/runtime/start_hook.py:58-87 | a write keeps every dict's keys distinct |
| Nested.SetKeyTwice | yolks/minecraft/runtime/start_hook.py:71-74 | a second write through the same key lands in the dict the first write left there |
| Nested.SetSlotTwice | yolks/minecraft/runtime/start_hook.py:76-85 | a second write through the same slot finds the list already long enough and writes the same item |
| Nested.SetLeafTwice | yolks/minecraft/runtime/start_hook.py:81-85 | a final slot written twice holds the second value in a list padded once |
| Nested.SetKeyWellFormed | yolks/minecraft/runtime/start_hook.py:71-74 | writing under a key keeps the dict well-formed |
| Nested.SetSlotWellFormed | yolks/minecraft/runtime/start_hook.py:76-85 | writing into a slot keeps the dict and the list's items well-formed |
| Nested.PutWellFormed | yolks/minecraft/runtime/start_hook.py:73 | assigning a well-formed value into a well-formed dict keeps it well-formed |
| Nested.ListWellFormed | yolks/minecraft/runtime/start_hook.py:85 | replacing a list item by a well-formed value keeps the list well-formed |
| Nested.ListAtWellFormed | yolks/minecraft/runtime/start_hook.py:81-82 | the list found under a name has only well-formed items |
| Nested.NextWellFormed | yolks/minecraft/runtime/start_hook.py:66-74 | the level descended into is well-formed |
| Nested.LookupWellFormed | yolks/minecraft/runtime/start_hook.py:66 | a value read from a well-formed dict is well-formed |
| Nested.SlotPieceExample | yolks/minecraft/runtime/start_hook.py:62-65 | the piece `a[2]` is the slot 2 of `a` |
| Nested.SlotPathExample | yolks/minecraft/runtime/start_hook.py:59-65 | the path `a[2]` is the single slot 2 of `a` |
| Nested.PadExample | yolks/minecraft/runtime/start_hook.py:81-85 | `a[2]` written into `{}` gives `a = [None, None, x]` |
| YamlPatch.Initial | yolks/minecraft/runtime/start_hook.py:95-100 | a missing file starts as `{}`, and a loaded file as its document |
| YamlPatch.ApplyYamlRules | yolks/minecraft/runtime/start_hook.py:102-105 | the rule loop as a function: each rule's expanded value written at its path, in order; `ApplyStep` and `ErrSticks` state it |
| YamlPatch.PatchYaml | yolks/minecraft/runtime/start_hook.py:102-105 | the loop writes every rule's expanded value at its path, in rule order, stopping at the first write that raises |
| YamlPatch.ApplyStep | yolks/minecraft/runtime/start_hook.py:102-105 | one more rule is one more write on the document so far; a write that raises is the outcome of the whole run |
| YamlPatch.ErrSticks | yolks/minecraft/runtime/start_hook.py:102-105 | once a rule raises, later rules do not run and the run ends with that exception |
| YamlPatch.LastRuleReadsBack | yolks/minecraft/runtime/start_hook.py:102-105 | after a successful run, the last rule's path reads its expanded value |
| YamlPatch.SamePathLaterWins | yolks/minecraft/runtime/start_hook.py:102-105 | a later rule on a path that parses to the same segments (`a[1]` and `a[01]`, say) overrides the earlier one |
| YamlPatch.ApplyKeepsWellFormed | yolks/minecraft/runtime/start_hook.py:102-105 | well-formed documents and rule values give a well-formed result |
| YamlPatch.KeyPathsNeverRaise | yolks/minecraft/runtime/start_hook.py:95-105 | rules without `[` never make a run on a dict (or a missing file) raise |
| PropertiesPatch.ParseLine | yolks/minecraft/runtime/start_hook.py:117-124 | one line of the file: dropped when blank, a comment or without `=`, else split at the first `=` with key and value stripped; `ParseLineSpec` states it |
| PropertiesPatch.ParseLineSpec | yolks/minecraft/runtime/start_hook.py:117-124 | a line is dropped exactly when its stripped text is empty, starts with `#` or has no `=`; a kept line gives a stripped key without `=` not starting with `#`, and a stripped value; from a line as read, neither holds a line break |
| PropertiesPatch.ParseTable | yolks/minecraft/runtime/start_hook.py:113-124 | the dict read from the file's lines; `ParseTableSpec` and `ParseTableClean` state it |
| PropertiesPatch.ParseTableStep | yolks/minecraft/runtime/start_hook.py:116-124 | each kept line assigns its key, in file order |
| PropertiesPatch.DedupSpec | yolks/minecraft/runtime/start_hook.py:124 | the first occurrences hold each key once and no other |
| PropertiesPatch.ParseTableSpec | yolks/minecraft/runtime/start_hook.py:113-124 | the table lists each key of the file once, in the order of first occurrence, holding the value of its last line |
| PropertiesPatch.ParseTableClean | yolks/minecraft/runtime/start_hook.py:113-124 | a table read from lines as a file yields them has clean entries (stripped, no line breaks, no `=` in keys, no key starting with `#`) and distinct keys |
| PropertiesPatch.ParseRendered | yolks/minecraft/runtime/start_hook.py:131-133 | a clean entry's written line reads back as that entry |
| PropertiesPatch.ParseRender | yolks/minecraft/runtime/start_hook.py:113-133 | writing a clean table and reading it back gives the table |
| PropertiesPatch.RenderReadsBack | yolks/minecraft/runtime/start_hook.py:131-133 | the written lines of a clean table are complete lines, so the written text reads back as exactly those lines |
| PropertiesPatch.RuleTexts | yolks/minecraft/runtime/start_hook.py:126-129 | each rule pairs its key with `str(expand_variables(value))`, in rule order |
| PropertiesPatch.Render | yolks/minecraft/runtime/start_hook.py:131-133 | one written line per entry, the entry's `key=value\n`, in table order |
| PropertiesPatch.RenderAppend | yolks/minecraft/runtime/start_hook.py:132-133 | one more entry writes one more line, at the end |
| PropertiesPatch.RenderEntry | yolks/minecraft/runtime/start_hook.py:133 | `f"{key}={value}\n"`; `ParseRendered` states that it reads back |
| PropertiesPatch.SetAll | yolks/minecraft/runtime/start_hook.py:126-129 | the rule loop's assignments, in order; `SetAllLookup` and `SetAllKeys` state what they leave |
| PropertiesPatch.SetAllStep | yolks/minecraft/runtime/start_hook.py:126-129 | one more rule is one more assignment |
| PropertiesPatch.PutValuesClean | yolks/minecraft/runtime/start_hook.py:129 | assigning a clean entry keeps the table clean |
| PropertiesPatch.PutAppends | yolks/minecraft/runtime/start_hook.py:129 | a new key goes at the end |
| PropertiesPatch.SetAllSets | yolks/minecraft/runtime/start_hook.py:126-129 | every assigned key holds the text assigned to it |
| PropertiesPatch.SetAllOthers | yolks/minecraft/runtime/start_hook.py:126-129 | every key not assigned keeps its value |
| PropertiesPatch.KeysInit | yolks/minecraft/runtime/start_hook.py:126-129 | a key missing from the assignments is missing from all but the last and is not the last |
| PropertiesPatch.SetAllLookup | yolks/minecraft/runtime/start_hook.py:126-129 | every ruled key holds its text and every other key keeps its value |
| PropertiesPatch.SetAllKeys | yolks/minecraft/runtime/start_hook.py:126-129 | existing keys keep their places and new rule keys are appended in rule order |
| PropertiesPatch.UnseenSubset | yolks/minecraft/runtime/start_hook.py:126-129 | only rule keys are appended |
| PropertiesPatch.SetAllTwice | yolks/minecraft/runtime/start_hook.py:126-129 | applying the same rules twice equals applying them once |
| PropertiesPatch.SetAllSettled | yolks/minecraft/runtime/start_hook.py:126-129 | rules whose keys already hold their texts change nothing |
| PropertiesPatch.SetAllClean | yolks/minecraft/runtime/start_hook.py:126-129 | clean rules keep a clean table clean and its keys distinct |
| PropertiesPatch.RuleTextsKeys | yolks/minecraft/runtime/start_hook.py:126-129 | the rule texts have the rules' keys, distinct |
| PropertiesPatch.PatchedProperties | yolks/minecraft/runtime/start_hook.py:111-133 | the text written for a file holding some text or missing |
| PropertiesPatch.PatchProperties | yolks/minecraft/runtime/start_hook.py:111-133 | the reading, rule and writing loops write the text of the patched table |
| PropertiesPatch.PatchedTable | yolks/minecraft/runtime/start_hook.py:111-133 | in the written file, ruled keys hold their expanded texts and other keys their last value in the file; the file's keys keep their order and new rule keys follow in rule order |
| PropertiesPatch.PatchTwice | yolks/minecraft/runtime/start_hook.py:111-133 | when rule keys and texts are clean (stripped, no line break, no `=` in the key, no key starting with `#`), patching the written file writes the same text again |
| GenericPatch.LookupScalar | yolks/minecraft/runtime/start_hook.py:156 | `rules[key]` of scalar rules is a scalar |
| GenericPatch.KeyLine | yolks/minecraft/runtime/start_hook.py:156-158 | `str(expand_variables(rules[key])) + "\n"`; `KeyLineEnded` and `KeyLineStable` state it |
| GenericPatch.FirstMatch | yolks/minecraft/runtime/start_hook.py:152-161 | the first key that the stripped line starts with: found keys are a prefix of the line, and none is found exactly when no key is |
| GenericPatch.RewriteLine | yolks/minecraft/runtime/start_hook.py:152-163 | a line is replaced by its first matching key's text and `\n`, or kept; `RewriteLineStable`, `LineKept` and `LineReplaced` state it |
| GenericPatch.RewriteLines | yolks/minecraft/runtime/start_hook.py:151-163 | one output line per input line |
| GenericPatch.MatchedKeys | yolks/minecraft/runtime/start_hook.py:151-159 | `patched_keys`: the first match of each line; `MatchedKeysSpec` states it |
| GenericPatch.Unmatched | yolks/minecraft/runtime/start_hook.py:165 | the appended keys are exactly the keys not patched |
| GenericPatch.KeyLines | yolks/minecraft/runtime/start_hook.py:165-168 | one written line per appended key, holding that key's text |
| GenericPatch.GenericRewriteAsWritten | yolks/minecraft/runtime/start_hook.py:147-168 | `new_lines` exactly as the source builds it: rewritten lines, then the unmatched keys' lines; `GluedLastLine` shows what it writes for a last line without `\n` |
| GenericPatch.EndLast | yolks/minecraft/runtime/start_hook.py:147-168 | the last line gets a `\n` when it lacks one; every other line is unchanged |
| GenericPatch.GenericRewrite | yolks/minecraft/runtime/start_hook.py:147-168 | the lines written, corrected: the last line is ended before keys are appended; `GenericAt`, `GenericReadBack` and `GenericIdempotent` state it |
| GenericPatch.GenericText | yolks/minecraft/runtime/start_hook.py:136-171 | the text written for a file holding some text or missing, with the corrected rewrite; `AsWrittenTextAgrees` says when the source writes the same |
| GenericPatch.GenericTextAsWritten | yolks/minecraft/runtime/start_hook.py:136-171 | the text `patch_generic_file` writes, as the source builds it; `AsWrittenReadBack` and `AsWrittenLength` state what it reads back as |
| GenericPatch.PatchGeneric | yolks/minecraft/runtime/start_hook.py:136-171 | the nested matching loop (leaving at the first match) and the append loop write exactly the source's lines: the rewritten lines, then the unmatched keys' lines |
| GenericPatch.AppendUnmatched | yolks/minecraft/runtime/start_hook.py:165-168 | the append loop adds the line of each key not patched, in iteration order |
| GenericPatch.RewriteStep | yolks/minecraft/runtime/start_hook.py:151-163 | one more line is one more rewritten line |
| GenericPatch.MatchedStep | yolks/minecraft/runtime/start_hook.py:151-161 | one more line patches at most one more key: its first match |
| GenericPatch.FindMatch | yolks/minecraft/runtime/start_hook.py:152-161 | the inner loop leaves at the first key the stripped line starts with, or finds none |
| GenericPatch.AppendStep | yolks/minecraft/runtime/start_hook.py:165-168 | one more key in the append loop adds its line exactly when it patched no line |
| GenericPatch.KeyLinesSnoc | yolks/minecraft/runtime/start_hook.py:165-168 | one more appended key is one more line, at the end |
| GenericPatch.KeyLineEnded | yolks/minecraft/runtime/start_hook.py:158 | every rule's written line ends with `\n` |
| GenericPatch.UnmatchedAll | yolks/minecraft/runtime/start_hook.py:165 | when every key patched a line, nothing is appended |
| GenericPatch.UnmatchedSpec | yolks/minecraft/runtime/start_hook.py:165 | no key is appended twice |
| GenericPatch.RewriteLinesAt | yolks/minecraft/runtime/start_hook.py:151-163 | each output line is its input line rewritten on its own |
| GenericPatch.MatchedKeysSpec | yolks/minecraft/runtime/start_hook.py:159 | the patched keys are exactly the keys that were some line's first match |
| GenericPatch.MatchedKeysSound | yolks/minecraft/runtime/start_hook.py:159 | every patched key was some line's first match |
| GenericPatch.MatchedKeysComplete | yolks/minecraft/runtime/start_hook.py:159 | every line's first match is a patched key |
| GenericPatch.GenericAt | yolks/minecraft/runtime/start_hook.py:147-168 | the written lines are the rewritten input lines, the last one ended when keys follow, then exactly the appended keys' lines |
| GenericPatch.AsWrittenAt | yolks/minecraft/runtime/start_hook.py:147-168 | the source's lines: each line read, rewritten in place, then exactly the appended keys' lines |
| GenericPatch.LineKept | yolks/minecraft/runtime/start_hook.py:151-163 | a line that no rule key prefixes (after stripping) is written exactly as read, a last line without `\n` included |
| GenericPatch.LineReplaced | yolks/minecraft/runtime/start_hook.py:152-159 | in the source's lines, a line that some rule key prefixes is replaced by the text of a key that prefixes it, and that key is not appended |
| GenericPatch.UnmatchedCount | yolks/minecraft/runtime/start_hook.py:165 | appended plus patched keys make up all the keys |
| GenericPatch.PendingCount | yolks/minecraft/runtime/start_hook.py:165 | the appended keys number all the keys less the patched ones |
| GenericPatch.EndedLine | yolks/minecraft/runtime/start_hook.py:168 | a line without `\n` that is given one is a complete line |
| GenericPatch.GenericShapeAt | yolks/minecraft/runtime/start_hook.py:139-168 | each written line is a line as `readlines` returns it, ended unless it is the last, when rule texts hold no line break |
| GenericPatch.GenericShape | yolks/minecraft/runtime/start_hook.py:139-171 | with rule texts free of line breaks, the written lines are lines as `readlines` returns them |
| GenericPatch.GenericReadBack | yolks/minecraft/runtime/start_hook.py:139-171 | with rule texts free of line breaks, the written file reads back as exactly the written lines |
| GenericPatch.GenericLength | yolks/minecraft/runtime/start_hook.py:139-171 | with rule texts free of line breaks, the written file reads back as the old line count plus the number of keys that patched no line |
| GenericPatch.AppendedOnce | yolks/minecraft/runtime/start_hook.py:139-171 | with rule texts free of line breaks, the file read back ends with the appended keys' lines, each on a line of its own and each key once; a key is appended exactly when it was no line's first match (even if it prefixes a line) |
| GenericPatch.MissingFile | yolks/minecraft/runtime/start_hook.py:138-171 | a missing file is created holding one line per rule, in append order |
| GenericPatch.FirstMatchSame | yolks/minecraft/runtime/start_hook.py:152-155 | when at most one key prefixes a line, every key order finds the same match |
| GenericPatch.SameMatches | yolks/minecraft/runtime/start_hook.py:151-163 | with unambiguous lines, two key orders rewrite the same lines and patch the same keys |
| GenericPatch.MatchOrderIrrelevant | yolks/minecraft/runtime/start_hook.py:148-163 | when no line starts with two rule keys, the set's iteration order changes neither the source's lines nor the corrected ones |
| GenericPatch.RewriteLineStable | yolks/minecraft/runtime/start_hook.py:152-163 | a rewritten line matches the same key again and rewrites to itself |
| GenericPatch.RewriteTwice | yolks/minecraft/runtime/start_hook.py:151-163 | rewriting rewritten lines changes nothing and patches the same keys |
| GenericPatch.KeyLineStable | yolks/minecraft/runtime/start_hook.py:152-168 | an appended line matches its own key and rewrites to itself |
| GenericPatch.FixedMatches | yolks/minecraft/runtime/start_hook.py:159 | lines that each match their own key patch exactly those keys |
| GenericPatch.KeyLinesStable | yolks/minecraft/runtime/start_hook.py:152-168 | appended lines are kept by a second pass and patch exactly their keys |
| GenericPatch.RewriteConcat | yolks/minecraft/runtime/start_hook.py:151-163 | lines are rewritten independently of each other |
| GenericPatch.UnmatchedNone | yolks/minecraft/runtime/start_hook.py:165 | with nothing patched, every key is appended, in iteration order |
| GenericPatch.EndLastStable | yolks/minecraft/runtime/start_hook.py:151-168 | ending a last line that rewrites to itself keeps it rewriting to itself and patching the same keys |
| GenericPatch.GenericSettled | yolks/minecraft/runtime/start_hook.py:147-168 | lines that rewrite to themselves and leave no key to append are written as they are |
| GenericPatch.GenericRewriteTwice | yolks/minecraft/runtime/start_hook.py:147-168 | when every rule's line matches its own key, rewriting the written lines again changes nothing |
| GenericPatch.GenericIdempotent | yolks/minecraft/runtime/start_hook.py:136-171 | when every rule's line is matched back to its own key and holds no line break, patching the written file writes the same text |
| GenericPatch.ReadSingle | yolks/minecraft/runtime/start_hook.py:139-140 | a single line reads back as itself |
| GenericPatch.JoinPair | yolks/minecraft/runtime/start_hook.py:170-171 | two lines are written one after the other |
| GenericPatch.GlueExpanded | yolks/minecraft/runtime/start_hook.py:156 | the rule value `b=2` expands to the text `b=2` |
| GenericPatch.GlueKeyLine | yolks/minecraft/runtime/start_hook.py:156-158 | the rule `b=` with value `b=2` writes the line `b=2\n` |
| GenericPatch.GlueStrip | yolks/minecraft/runtime/start_hook.py:152-155 | the line `b=2\n`, stripped, starts with `b=` |
| GenericPatch.GlueKeyIsLine | yolks/minecraft/runtime/start_hook.py:158 | `b=2\n` is a complete line |
| GenericPatch.GlueSettled | yolks/minecraft/runtime/start_hook.py:152-168 | the rule `b=` with value `b=2` matches its own line, which holds no line break before its end |
| GenericPatch.GlueUnmatched | yolks/minecraft/runtime/start_hook.py:151-165 | a line starting with `a` is kept and leaves `b=` to append |
| GenericPatch.GlueOnce | yolks/minecraft/runtime/start_hook.py:147-168 | for such a line, the source appends `b=2\n` after it, and the corrected rewrite first ends it |
| GenericPatch.GlueLine | yolks/minecraft/runtime/start_hook.py:168-171 | a line without `\n` followed by `b=2\n` is written as one line |
| GenericPatch.GluedLine | yolks/minecraft/runtime/start_hook.py:139-171 | as written, a one-line file starting with `a` and lacking `\n` is written with `b=2\n` glued onto its line, and a second run appends `b=2\n` again |
| GenericPatch.GluedLastLine | yolks/minecraft/runtime/start_hook.py:139-171 | as written, the file `a=1` with the rule `b=` → `b=2` becomes `a=1b=2\n`, which reads back as one line, and a second run writes `a=1b=2\nb=2\n` |
| GenericPatch.AsWrittenAgrees | yolks/minecraft/runtime/start_hook.py:147-171 | the source's lines equal the corrected ones exactly when nothing is appended, nothing was read, or the last rewritten line ends with `\n`; so whenever the file read is empty or ends with `\n` |
| GenericPatch.AsWrittenTextAgrees | yolks/minecraft/runtime/start_hook.py:139-171 | for a missing or empty file, or one whose text ends with a line break, the source writes the corrected text, so every lemma about `GenericText` holds of what it writes |
| GenericPatch.AsWrittenReadBack | yolks/minecraft/runtime/start_hook.py:139-171 | for any file, with rule texts free of line breaks, the source's text reads back as the lines written, except that an unended last line and the first appended line read back as one line |
| GenericPatch.AsWrittenLength | yolks/minecraft/runtime/start_hook.py:139-171 | the source's text reads back as the old line count plus the number of keys that patched no line, less one exactly when the first appended line is glued onto an unended last line |
| GenericPatch.GluedRead | yolks/minecraft/runtime/start_hook.py:168-171 | lines written after a last line without `\n` read back with that line and the next joined, everything else as written |
| GenericPatch.GluedShape | yolks/minecraft/runtime/start_hook.py:168-171 | the lines so joined are lines as `readlines` returns them |
| GenericPatch.EndedLineOnce | yolks/minecraft/runtime/start_hook.py:139-171 | corrected, such a file is written as its line, `\n`, then `b=2\n`, and a second run writes the same text |
| GenericPatch.EndedBeforeAppend | yolks/minecraft/runtime/start_hook.py:139-171 | corrected, the file `a=1` becomes `a=1\nb=2\n`, and a second run writes the same text |
| Hook.FullPath | yolks/minecraft/runtime/start_hook.py:187 | `os.path.join(WORKING_DIR, file_path)`; `FullPathSpec` states it |
| Hook.WorkingDir | yolks/minecraft/runtime/start_hook.py:9 | `WORKING_DIR`, `/home/container` |
| Hook.FullPathSpec | yolks/minecraft/runtime/start_hook.py:187 | a relative path lands under `/home/container/` and can be read back; an absolute path is used as given |
| Hook.FullPathInjective | yolks/minecraft/runtime/start_hook.py:187 | two different relative paths never give the same full path (paths are not normalised, see "## Left out") |
| Hook.Field | yolks/minecraft/runtime/start_hook.py:182-183 | a missing key reads as the default |
| Hook.Classify | yolks/minecraft/runtime/start_hook.py:181-201 | the parser and rules of one entry select a patcher, a skip, or the exception `.get` raises; the `Classify*` lemmas state it |
| Hook.ClassifySkipsUnset | yolks/minecraft/runtime/start_hook.py:182-185 | an entry without a parser, without rules or with empty rules is skipped |
| Hook.ClassifySkipsUnknown | yolks/minecraft/runtime/start_hook.py:194-201 | a parser name other than the four known ones is skipped |
| Hook.ClassifyKnown | yolks/minecraft/runtime/start_hook.py:194-199 | `yaml` and `yml`, `properties` and `file` select their patcher with exactly the given rules |
| Hook.ClassifyRaises | yolks/minecraft/runtime/start_hook.py:181-199 | dispatch raises exactly for an entry that is not a dict, or for a known parser whose truthy rules are not a dict |
| Hook.KeysOrder | yolks/minecraft/runtime/start_hook.py:148 | the rules' own key order is an iteration order of the key set |
| Hook.Existing | yolks/minecraft/runtime/start_hook.py:95-100 | a file is found exactly when it exists |
| Hook.Step | yolks/minecraft/runtime/start_hook.py:181-201 | one entry of the loop: the selected patcher applied to the text at the entry's full path, the generic one writing the source's own text; `StepFrame`, `SkipUnchanged` and `PropertiesStep` state it |
| Hook.PatchFile | yolks/minecraft/runtime/start_hook.py:181-201 | one entry is dispatched to the patcher its parser names, and the text it produces (for the generic patcher, the source's text) is written at its full path |
| Hook.Run | yolks/minecraft/runtime/start_hook.py:181-201 | the entries in order; the first exception ends the run, which keeps the files the earlier entries wrote; `RunStep`, `RunErrSticks`, `RunFrame` and `RaisedAfter` state it |
| Hook.Outcome | yolks/minecraft/runtime/start_hook.py:174-203 | the whole run of `main` on a configuration value: a configuration or `files` that is not a dict raises before any file is written |
| Hook.RunHook | yolks/minecraft/runtime/start_hook.py:174-203 | the loop over `files` applies every entry in order; at the first exception it stops and returns the files as the entries before it left them, with the error |
| Hook.RunStep | yolks/minecraft/runtime/start_hook.py:181 | one more entry after a completed prefix is one more step: it raises with the files so far, or completes with the files it writes |
| Hook.RunErrSticks | yolks/minecraft/runtime/start_hook.py:181-199 | once an entry raises, no later entry runs |
| Hook.StepFrame | yolks/minecraft/runtime/start_hook.py:187-199 | an entry writes at most its own full path |
| Hook.SkipUnchanged | yolks/minecraft/runtime/start_hook.py:184-185 | a skipped entry leaves every file as it was |
| Hook.RunFrame | yolks/minecraft/runtime/start_hook.py:181-199 | a run, completed or raised, leaves every file that no entry names as it was |
| Hook.RaisedAfter | yolks/minecraft/runtime/start_hook.py:181-199 | a run that raises stops at some entry: the files are exactly those the entries before it produced, and that entry raised the error without writing its own file |
| Hook.PropertiesStep | yolks/minecraft/runtime/start_hook.py:196-197 | a properties entry writes the patched text of what its file held |

## Left out

- File I/O is not modelled. The file system is a map from full path to the text of
  the file, and a missing file is an absent key. `os.makedirs`, the `chdir` into the
  working directory and reading `/start_hook.json` are left out; the hook takes the
  parsed configuration as a value.
- FileText.ReadLines: the UTF-8 decoding and encoding of files is not modelled. A file
  is already text; a file that is not valid UTF-8 (which makes Python raise) is not
  modelled.
- YAML loading and dumping (ruamel round-trip formatting, the 4096 width, indentation)
  become the function parameters `load` and `dump`. A loaded document is a value; an
  empty YAML file loads as `None`, on which the write raises.
- JSON decoding is left out, and so are floats. The configuration is a `Value`, and
  dicts are modelled with distinct keys, as `json.load` produces them.
- `log`, `DEBUG_START_HOOK` and `print` have no effect on the files and are left out.
- `os.getenv` becomes the `env` map parameter.
- Hook.Modelled: the properties and generic patchers are modelled only for scalar rule
  values, because `str()` of a dict or list (Python's `repr`) is not modelled.
- Hook.Step: for the generic patcher, `main` passes the rules' own key order as the
  iteration order of the key set. `GenericPatch` itself takes both orders as
  parameters, and `MatchOrderIrrelevant` shows that the match order does not matter
  when no line starts with two keys.
- Text.IsSpace, Text.Lower, Text.IsDigits, Paths.IsWordChar: `strip`, `lower`, `\w`,
  `\d` and `isdigit` are modelled on ASCII, plus Python's full whitespace set for
  `strip`. Unicode letters and digits are not modelled. The Latin-1 superscripts are
  modelled once, for the finding on `to_native_type`.
- Text.DigitsValue: Python's limit of 4300 digits on `int()` of a string is not
  modelled.
- Nested.Set: the raised exception is represented by a message; its exact class and
  text (`AttributeError` or `TypeError`) are not distinguished. Non-string YAML keys
  are not modelled.
- Nested.Set: `set_nested_value` updates the document in place. The model returns the
  new tree, so aliasing between YAML nodes (anchors shared by several paths) is not
  modelled.
- Nested.SetFrame: no frame is stated for a path that reaches the written entry under
  the other form of the same name (`a` against `a[1]`). Both forms address the same
  dict entry, and the write may replace that entry's value by a dict or a list.
- GenericPatch.GenericRewrite: it ends a last line that lacks `\n` before keys are
  appended, which is the corrected behaviour in the finding below. `PatchGeneric` and
  `Hook` write the source's own text (`GenericRewriteAsWritten`).
- GenericPatch.GenericAt: it is stated for the corrected lines, whose last line is
  ended when keys follow. `AsWrittenAt` states the source's lines, where it is not.
- GenericPatch.GenericShapeAt: it is proved of the corrected lines only. The source's
  lines are the same when the file is missing, empty or ends with a line break
  (`AsWrittenAgrees`); otherwise `AsWrittenReadBack` states what they read back as.
- GenericPatch.GenericShape: the same; it holds of the source's lines exactly when
  `AsWrittenAgrees` says they equal the corrected ones.
- GenericPatch.GenericReadBack: it is stated for the corrected text. For the source's
  text, `AsWrittenReadBack` gives the read-back for every file, with the glued line
  spelled out.
- GenericPatch.GenericLength: it is stated for the corrected text. For the source's
  text, `AsWrittenLength` gives the count, one less when a line is glued.
- GenericPatch.AppendedOnce: it is stated for the corrected text. It holds of the
  source's text when the file is missing, empty or ends with a line break
  (`AsWrittenTextAgrees`); otherwise the first appended line is glued
  (`AsWrittenReadBack`), and the next run appends that key again (`GluedLastLine`).
- GenericPatch.GenericIdempotent: it is stated for the corrected text; `GluedLastLine`
  shows that the source's text is not idempotent when the file ends without a line
  break.
- GenericPatch.GenericReadBack, GenericPatch.GenericLength, GenericPatch.AppendedOnce,
  GenericPatch.GenericIdempotent, GenericPatch.AsWrittenReadBack,
  GenericPatch.AsWrittenLength: these read the written file back, so they require rule
  texts without line breaks (`LineSafe`). A rule text that holds `\n` is written as
  several lines.
- PropertiesPatch.PatchTwice: it requires rule keys and texts that survive a write and
  a read (`Clean`). A text with a line break or surrounding spaces, or a key with `=`,
  reads back differently.
- Expansion.ExpandEmbedded: the concrete `port={{SERVER_PORT}}` example is covered by
  this general lemma, not by a lemma of its own.
- Hook.FullPath: `os.path.join` is modelled without normalisation (`..` and doubled
  slashes are kept as written).

## Findings

| source | as written | input that shows it | evidently intended | confidence | as-written member | corrected member |
|---|---|---|---|---|---|---|
| yolks/minecraft/runtime/start_hook.py:34-35 | `val_lower.isdigit()` guards `int(val_lower)`, but `isdigit` also accepts superscript digits such as `²`, which `int()` rejects with `ValueError`; nothing catches it, so the whole hook stops | a rule value `"²"`, or a placeholder that expands to it | a value that is not a decimal number stays a string | not executed | Coerce.ToNativeAsWritten, Coerce.SuperscriptDigitRaises | Coerce.ToNative |
| yolks/minecraft/runtime/start_hook.py:163-171 | an unmatched last line without a final `\n` is kept as read, and `writelines` puts the first appended `value + "\n"` right after it, so the two are glued into one line; the next run does not see the appended key at the start of a line and appends it again | a file holding `a=1` (no final newline) and the rule `b=` → `b=2`: the file becomes `a=1b=2\n`, and a second run makes it `a=1b=2\nb=2\n` | every appended value on a line of its own, and a second run with the same rules changes nothing | not executed | GenericPatch.GenericRewriteAsWritten, GenericPatch.GluedLastLine | GenericPatch.GenericRewrite, GenericPatch.EndedBeforeAppend, GenericPatch.GenericIdempotent |
