# String references of QuAM, modelled in Dafny

QuAM components can hold *references* instead of values. A reference is a string such as `":/wiring.port_I"`, `":./channel"` or `":../qubits[0].xy"`. It names another value in the tree of components. `quam/utils/string_reference.py` holds the small language that reads such strings:

- whether a string is a reference, and whether the reference is absolute;
- how a path is split at the next `.` or `[`;
- how a path is evaluated step by step against an object and its parents;
- how a reference is resolved from the object that holds it or from the root, and how lookup failures are reported.

The model has five modules:

- `Wrappers` (`wrappers.dfy`): `Option`.
- `Text` (`text.dfy`): the Python `str` builtins the evaluator depends on, stated over `seq<char>`:
  - `startswith`;
  - `lstrip` and `rstrip` with a *set* of characters;
  - `str.index` of one character, which yields `None` where Python raises `ValueError`;
  - `isdigit`;
  - `int()` of a digit string, and its inverse `str()` of a natural number.
- `ObjectGraph` (`object_graph.dfy`): the Python objects as an arena.
  - A `Graph` maps node ids to records, each holding an attribute map and an optional parent id. Every other value (`None`, int, str, list, dict) is an immutable `Value`.
  - `GetAttr` models `getattr`: on a node, the name `parent` reads the parent link. `GetItem` models `obj[key]`, with Python's negative indices for lists and strings.
  - A lookup failure is the exception Python would raise, carried in a `Result`.
- `StringReference` (`string_reference.dfy`): the five functions of the source file.
  - `split_next_attribute` fills a dict in a loop and then takes a minimum. It is an imperative `method` (`SplitNextAttribute`, with `MinPosition`), proved equal to the specification function `SplitAtFirstSplitter`. The properties of the split are proved about that function.
  - `is_reference`, `is_absolute_reference` and `get_relative_reference_value` are pure, so they are functions. One step of the evaluator is the function `NextSegment`, and every path step has its own lemma.
  - `get_referenced_value` is a function too: it chooses the base object and wraps the errors.
- `ReferencePaths` (`reference_paths.dfy`): an independent meaning for reference paths.
  - A path is a list of `Step`s (`Up`, `Attr(name)`, `Index(key)`), and `EvalSteps` applies them one after the other.
  - `Render` writes the steps out in the reference syntax.
  - The main theorem says the string evaluator computes `EvalSteps` on every rendered path. This covers relative (`:./`, `:../`) and absolute (`:/`) references resolved through `GetReferencedValue`.

The doc comment of `is_absolute_reference` describes an absolute reference as one that starts with `:` not followed by `./` or `../`; the code tests for the prefix `:/`. On every reference the two agree (`AbsoluteAsDocumented`). They differ only on strings such as `":x"`, which are not references at all, so `is_absolute_reference` rejects them first. The model follows the code.

## Model

| member | source | states |
|---|---|---|
| StringReference.IsReference | quam/utils/string_reference.py:4-8 | a reference is a str whose first character is `:` and whose second is `/` or `.`; every value that is not a str is rejected |
| StringReference.ReferenceHasMarker | quam/utils/string_reference.py:8 | every reference is `:/`, `:./` or `:../` followed by the rest of the string |
| StringReference.ReferenceMarkers | quam/utils/string_reference.py:4-19 | for any tail, `:/`, `:./` and `:../` followed by it are references; the first is absolute and the other two are not |
| StringReference.LiteralUnlessColonFirst | quam/utils/string_reference.py:8 | a string that does not start with `:` is not a reference, wherever else it has colons |
| StringReference.IsAbsoluteReference | quam/utils/string_reference.py:11-19 | absolute implies reference; on strings, absolute holds exactly when the string starts with `:/` |
| StringReference.AbsoluteAsDocumented | quam/utils/string_reference.py:12-19 | on a reference, the `:/` test agrees with the documented rule: `:` not followed by `./` or `../` |
| StringReference.ColonAloneIsNoReference | quam/utils/string_reference.py:15-19 | `":x"`, which the documented rule alone would call absolute, is neither a reference nor absolute |
| StringReference.FirstSplitterIndex | quam/utils/string_reference.py:38-49 | the position found holds a splitter and no earlier position does; none is found exactly when no character is a splitter |
| StringReference.SplitAtFirstSplitter | quam/utils/string_reference.py:38-49 | the two parts concatenate to the input; the first part has no splitter; the second is empty or starts with a splitter; with no splitter in the input the result is `(s, "")` |
| StringReference.SplitPosition | quam/utils/string_reference.py:38-49 | any splitter-free name followed by an empty rest, or by a rest that starts with a splitter, puts the first splitter at the end of the name |
| StringReference.SplitUnique | quam/utils/string_reference.py:38-49 | the three properties of the split determine it: any pair that has them is the result |
| StringReference.SplitExample | quam/utils/string_reference.py:22-49 | `"a.b[0].c"` splits into `"a"` and `".b[0].c"`, `"b[0].c"` into `"b"` and `"[0].c"`, and `"c"` into `"c"` and `""` |
| StringReference.SplitterBound | quam/utils/string_reference.py:41 | where `str.index` finds a splitter, the first splitter is at or before that position |
| StringReference.FirstSplitterFound | quam/utils/string_reference.py:41 | `str.index` of the character at the first splitter position finds that very position |
| StringReference.MinPosition | quam/utils/string_reference.py:48 | the result is one of the recorded positions and no recorded position is smaller |
| StringReference.SplitNextAttribute | quam/utils/string_reference.py:22-49 | the loop that records each splitter's `str.index` position, the empty-dict case and the minimum together give exactly `SplitAtFirstSplitter` |
| StringReference.ParseKey | quam/utils/string_reference.py:67-68 | a key becomes a non-negative int exactly when it is all digits; otherwise it is a str with no quote at either end |
| StringReference.ParseDecimalKey | quam/utils/string_reference.py:68 | the decimal digits of a natural number are read back as that int key |
| StringReference.EmptyKeyIsText | quam/utils/string_reference.py:67-68 | the empty key of `[]` is not all digits, so it is the str key `""` |
| StringReference.ParseBareKey | quam/utils/string_reference.py:68 | a key that is not all digits and has no quote at either end is read unchanged |
| StringReference.StripOpeningQuote | quam/utils/string_reference.py:68 | left-stripping quotes from a quoted key leaves the key and its closing quote, or nothing when the key is empty |
| StringReference.StripClosingQuote | quam/utils/string_reference.py:68 | right-stripping quotes from a key and its closing quote leaves the key |
| StringReference.ParseQuotedKey | quam/utils/string_reference.py:68 | a key between two quote characters is read back as the text between them |
| StringReference.NextSegment | quam/utils/string_reference.py:61-75 | one step always leaves a strictly shorter rest of the path, and its failures are lookup errors |
| StringReference.GetRelativeReferenceValue | quam/utils/string_reference.py:52-75 | evaluation terminates, because each recursive call gets a strictly shorter string; it fails only with attribute, key, index or type errors or a missing `]` |
| StringReference.SameStrippedPath | quam/utils/string_reference.py:57 | a path and the path with its leading `:` and `/` stripped evaluate the same |
| StringReference.MarkersIgnored | quam/utils/string_reference.py:57 | any run of `:` and `/` in front of a path is ignored |
| StringReference.OnlyMarkersIsIdentity | quam/utils/string_reference.py:57-60 | a path made only of `:` and `/`, the empty path included, returns the object unchanged |
| StringReference.ParentStep | quam/utils/string_reference.py:61-62 | `../` continues from the parent with the three characters consumed, and fails with the `parent` attribute error where there is no parent |
| StringReference.CurrentStep | quam/utils/string_reference.py:63-64 | `./` continues from the same object with the two characters consumed |
| StringReference.BracketSegment | quam/utils/string_reference.py:65-69 | on `[k]rest` with no `]` in `k`, the step looks up the parsed `k` and continues with `rest` |
| StringReference.IndexStep | quam/utils/string_reference.py:65-69 | `[k]` looks up the parsed key and continues after the first `]`, or fails with the lookup's own error |
| StringReference.MissingBracket | quam/utils/string_reference.py:65-66 | a `[` with no `]` anywhere after it fails with the `str.index` ValueError |
| StringReference.AttributeStep | quam/utils/string_reference.py:73-75 | a bare name is read with `getattr` and evaluation continues from the next splitter, or fails with that name's attribute error |
| StringReference.DottedAttributeStep | quam/utils/string_reference.py:70-75 | a `.` in front of a name is dropped, then the name is read with `getattr` as for a bare name |
| StringReference.WrapLookupError | quam/utils/string_reference.py:85-88 | values pass through; only attribute and key failures become a reference error that carries the string and the cause; every other failure passes unchanged |
| StringReference.GetReferencedValue | quam/utils/string_reference.py:78-88 | a non-reference fails with NotAReference; otherwise no bare attribute or key error escapes, a reference error carries the string and an attribute or key cause, and a reference never yields NotAReference |
| StringReference.MissingBracketUnwrapped | quam/utils/string_reference.py:85-88 | the missing-`]` ValueError leaves `get_referenced_value` unwrapped, as it is not an attribute or key error |
| StringReference.ResolvesFromRoot | quam/utils/string_reference.py:82-86 | an absolute reference is evaluated, whole, from the root |
| StringReference.ResolvesFromHolder | quam/utils/string_reference.py:82-86 | a relative reference is evaluated, whole, from the object that holds it |
| StringReference.CurrentMarkerSkipped | quam/utils/string_reference.py:57-64 | evaluating `:./p` is evaluating `p` from the same object |
| StringReference.ResolvesCurrentPath | quam/utils/string_reference.py:78-88 | resolving `:./p` evaluates `p` from the holder, with attribute and key failures wrapped |
| StringReference.ParentMarkerSkipped | quam/utils/string_reference.py:57-62 | evaluating `:../p` is evaluating `../p` |
| StringReference.ResolvesParentPath | quam/utils/string_reference.py:78-88 | resolving `:../p` evaluates `../p` from the holder, with attribute and key failures wrapped |
| StringReference.ResolvesRootPath | quam/utils/string_reference.py:78-88 | resolving `:/p` evaluates `p` from the root, with attribute and key failures wrapped |
| StringReference.AbsoluteIgnoresHolder | quam/utils/string_reference.py:82-83 | the result of an absolute reference does not depend on the object holding it |
| StringReference.RelativeIgnoresRoot | quam/utils/string_reference.py:82-83 | the result of a relative reference does not depend on the root |
| Text.StartsWithConcat | quam/utils/string_reference.py:8 | `str.startswith`: a prefix followed by any rest starts with that prefix |
| Text.StartsWithSplits | quam/utils/string_reference.py:61-64 | `str.startswith`: a string that starts with a prefix is that prefix followed by the rest, which the evaluator then continues with |
| Text.DigitsCharacters | quam/utils/string_reference.py:68 | `str.isdigit` (ASCII): true exactly on a non-empty string every character of which is `0`-`9` |
| Text.LeadingZero | quam/utils/string_reference.py:68 | `int()` of a digit string ignores a leading zero, so `"007"` is read as 7 |
| Text.LStrip | quam/utils/string_reference.py:57 | the result is a suffix of the input; every character removed is in the set; the result is empty or starts outside the set |
| Text.LStripDrops | quam/utils/string_reference.py:57 | a leading character from the set is removed and stripping goes on from there |
| Text.LStripPrefix | quam/utils/string_reference.py:57 | a whole run of set characters in front of a string leaves the same stripped result |
| Text.RStrip | quam/utils/string_reference.py:68 | the result is a prefix of the input; every character removed is in the set; the result is empty or ends outside the set |
| Text.IndexOf | quam/utils/string_reference.py:66 | the position found holds the character and no earlier position does; nothing is found exactly when the character is absent |
| Text.IndexOfFirst | quam/utils/string_reference.py:66 | the first occurrence of a character is the position `str.index` returns |
| Text.DigitChar | quam/utils/string_reference.py:68 | each value below ten has a digit character whose value it is |
| Text.Decimal | quam/utils/string_reference.py:68 | every natural number has a digit string (a non-empty one) that `int()` (`DigitsValue`) reads back as that number |
| ObjectGraph.GetAttr | quam/utils/string_reference.py:75 | failures are the attribute error for the name; `parent` succeeds exactly on a node with a parent and gives that parent; any other name succeeds exactly on a node that has the attribute and gives its value |
| ObjectGraph.SequenceIndex | quam/utils/string_reference.py:69 | an index is valid exactly when it lies in `-length .. length-1`; a negative index counts from the end |
| ObjectGraph.GetItem | quam/utils/string_reference.py:69 | a dict lookup gives the entry when the key is present and fails with that KeyError when it is not; an int index on a list or a str gives the item (for a str, the one-character str) when Python's index is valid, counting negative indices from the end, and fails with IndexError otherwise; a str key on a list or str fails with TypeError; nothing else is subscriptable (TypeError) |
| ReferencePaths.KeyText | quam/utils/string_reference.py:65-68 | the text written inside `[...]` contains no `]` and parses back to the key |
| ReferencePaths.Render | quam/utils/string_reference.py:57-75 | a rendered path never starts with `:` or `/`; after a segment it starts with a splitter; it is empty exactly for the empty path |
| ReferencePaths.RenderedStep | quam/utils/string_reference.py:61-75 | evaluating a rendered path performs its first step, then evaluates the rendering of the remaining steps, or fails with that step's error |
| ReferencePaths.RenderedPathResolves | quam/utils/string_reference.py:52-75 | the string evaluator on any rendered path equals the step-by-step meaning of the path |
| ReferencePaths.RelativeReferenceResolves | quam/utils/string_reference.py:78-88 | `:./` followed by a rendered path is a relative reference that resolves to the path's meaning from the holder, with attribute and key failures wrapped |
| ReferencePaths.ParentReferenceResolves | quam/utils/string_reference.py:78-88 | `:` followed by a rendered path that starts with `../` is a relative reference that resolves to the path's meaning from the holder |
| ReferencePaths.AbsoluteReferenceResolves | quam/utils/string_reference.py:78-88 | `:/` followed by a rendered path is an absolute reference that resolves to the path's meaning from the root, whatever object holds it |
| ReferencePaths.ParentExample | quam/utils/string_reference.py:61-62 | `":../x"` reads `x` from the parent of the holder |
| ReferencePaths.AbsoluteExample | quam/utils/string_reference.py:82-83 | `":/a.b"` reads `b` of `a` of the root, whatever object holds it |

## Left out

- `quam_components/core/qua_config.py` and `quam_components/core/quam_base.py` are not part of this model. They hold a configuration template, a loop over foreign `apply_to_config` methods, and a constructor that stores a file path.
- The test files are not part of this model. They exercise classes (serialisation, transmons, channels, pulses) whose source is not available, and file I/O and floating point.
- SplitNextAttribute: splitters are single characters. A multi-character splitter, which `str.index` would search for as a substring, is not modelled. The evaluator only ever uses the default `.[`.
- ObjectGraph.GetAttr: only node attributes and the parent link exist. The built-in attributes of Python values (`dict.keys`, `str.upper` and the like) and properties computed by QuAM classes are not modelled, and a node id missing from the graph behaves like a value without attributes. An attribute that itself holds a reference string is returned as that raw `Str`; QuAM classes resolve such an attribute on access, through attribute handling that is not part of this model.
- ObjectGraph.GetItem: nodes are not subscriptable (TypeError). A QuAM class that defines `__getitem__` is not modelled. Slicing is not modelled, because a key is an int or a str.
- Text.IsDigits: only the ASCII digits count. Python's `str.isdigit` also accepts other Unicode digits, such as superscripts; `int()` then accepts some of them and rejects others.
- The wording of Python's error messages is not modelled. The ValueError for a non-reference, for an invalid reference and for a missing `]` are three distinct error constructors; the invalid-reference error keeps the reference string and the original cause.
- The default `root=None` of `get_referenced_value` is a parameter here; passing `NoneValue` gives the Python default, after which any attribute lookup on it fails.
- GetRelativeReferenceValue: evaluation always terminates with a value or a lookup error. The Python function recurses once per path segment, so a path of about a thousand segments raises RecursionError under the default recursion limit; that limit is not modelled.
