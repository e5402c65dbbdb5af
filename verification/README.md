# DocumentName: deriving a file name from a document title

This project models `DocumentName` from the Cube.Pdf converter. The class
turns the title of a printed document into a name that can serve as the
initial file name. If the title has no value, the result is the caller's
default name. Otherwise the title goes through a strict `PathFilter`, and
the I/O layer reduces the filter's result to a name. Then a separator
heuristic runs on that name. It finds the last `" - "` in the name. If the
text before it has an extension, that text is the result. Otherwise, if
the text from the separator on has an extension, the result is the text
after the separator. Otherwise the name is kept whole.

Modules:

- `Strings` (`strings.dfy`): ordinal string search. It defines
  `LastIndexOf` and what a last occurrence is, plus prefix and suffix.
- `Paths` (`paths.dfy`): `HasExtension`, an approximation of
  `System.IO.Path.HasExtension` as the .NET Framework defines it. It scans
  back from the end. The first `.`, `\`, `/` or `:` decides, and a `.` that
  is the last character does not count as an extension. The scan is proved
  equal to a declarative description (`HasExtensionSpec`).
- `DocumentNames` (`document_name.dfy`): the constructor `Create`, the
  split at the separator, the heuristic, `GetValue`, and `Value`.
  `Value` is `GetValue` with `Paths.HasExtension` as the extension test.
  This module also holds `IsDerivedName`, a description of the heuristic
  that does not use the search.
- `DocumentNameProperties` (`document_name_properties.dfy`): lemmas for
  each branch, and agreement with `IsDerivedName` in both directions.
- `DocumentNameExamples` (`document_name_examples.dfy`): the heuristic on
  concrete titles.

The collaborators are parameters:

- `resolve: PathFilter -> string` stands for the filter's `Result`
  followed by `IO.Get(...).Name`. It receives the filter built by the
  constructor.
- `hasExt: string -> bool` stands for `System.IO.Path.HasExtension`.

`HasValue` is modelled as "present and non-empty". A null title is
`None`.

## Model

| member | source | states |
|---|---|---|
| DocumentNames.Create | Applications/Converter/Core/Sources/DocumentName.cs:58-70 | The document name keeps the title as its source and `alternate` as its default, and its filter has all five permissive flags off. |
| Strings.LastIndexOf | Applications/Converter/Core/Sources/DocumentName.cs:140 | For the non-empty key the heuristic uses, the result is -1 exactly when the key does not occur. Otherwise the key occurs at the result and at no later index. |
| Strings.LastIndexOfIsTheLastOccurrence | Applications/Converter/Core/Sources/DocumentName.cs:140 | Any index that is a last occurrence is the index `LastIndexOf` reports. |
| Paths.HasExtension | Applications/Converter/Core/Sources/DocumentName.cs:146-147 | The backward scan answers true exactly when some `.` is followed by at least one character and no later `.` or separator. |
| Paths.HasExtensionIgnoresDotlessPrefix | Applications/Converter/Core/Sources/DocumentName.cs:147-150 | Putting text without dots, such as `" - "`, in front of a name does not change whether the name has an extension. |
| DocumentNames.SplitAtSeparator | Applications/Converter/Core/Sources/DocumentName.cs:140-149 | There is no split exactly when `" - "` does not occur. Otherwise head + tail is the name, the tail starts with `" - "` (the `Debug.Assert`), and the head ends at the last occurrence. |
| DocumentNames.ApplySeparatorHeuristic | Applications/Converter/Core/Sources/DocumentName.cs:139-152 | The result is always a prefix or a suffix of the resolved name, and the whole name counts as both. |
| DocumentNames.Source | Applications/Converter/Core/Sources/DocumentName.cs:85 | The source read back is the title the filter holds. With `Create` it is exactly the title given to the constructor, null included. |
| DocumentNames.Value | Applications/Converter/Core/Sources/DocumentName.cs:96 | The public property. With no title it is the default name. With a title and `HasExtension` as the test, it is either the whole resolved name or a name that has an extension, so removing the separator never loses the tail's extension. |
| DocumentNames.GetValue | Applications/Converter/Core/Sources/DocumentName.cs:134-153 | With no title the result is the default name. With a title it is a prefix or suffix of the name resolved from the document's filter. |
| DocumentNameProperties.FallbackIgnoresCollaborators | Applications/Converter/Core/Sources/DocumentName.cs:136 | With no title, any two resolvers and extension tests give the same result, so neither is consulted. |
| DocumentNameProperties.ResolvedNameDeterminesValue | Applications/Converter/Core/Sources/DocumentName.cs:138 | Two resolvers that give the same name for the document's filter give the same value. |
| DocumentNameProperties.NoSeparatorPassesThrough | Applications/Converter/Core/Sources/DocumentName.cs:139-141 | A resolved name without `" - "` is returned unchanged. |
| DocumentNameProperties.SplitIsAtLastSeparator | Applications/Converter/Core/Sources/DocumentName.cs:140-144 | When `pos` is the last occurrence of `" - "`, the split is `dest[..pos]` and `dest[pos..]`. |
| DocumentNameProperties.HeadWins | Applications/Converter/Core/Sources/DocumentName.cs:146 | If the head has an extension, the result is the head, whatever the tail is. |
| DocumentNameProperties.TailWins | Applications/Converter/Core/Sources/DocumentName.cs:147-151 | If only the tail has an extension, the result is `dest[pos+3..]`. That is exactly three characters shorter than the tail, and it contains no `" - "`. |
| DocumentNameProperties.NeitherWins | Applications/Converter/Core/Sources/DocumentName.cs:152 | If neither side has an extension, the resolved name is returned unchanged. |
| DocumentNameProperties.HeuristicIsDerivedName | Applications/Converter/Core/Sources/DocumentName.cs:139-152 | The heuristic's result meets the search-free description: it is the name itself when there is no separator, and otherwise the side chosen in head-then-tail order at the last separator. |
| DocumentNameProperties.DerivedNameIsHeuristic | Applications/Converter/Core/Sources/DocumentName.cs:139-152 | Any string that meets the search-free description is the heuristic's result, so the description determines the result. |
| DocumentNameProperties.GetValueIsDerivedName | Applications/Converter/Core/Sources/DocumentName.cs:134-153 | With a title, a string meets the description for the resolved name if and only if it is the value. |
| DocumentNameExamples.HeadWinsExample | Applications/Converter/Core/Sources/DocumentName.cs:146 | `"Report.pdf - Acme Corp"` gives `"Report.pdf"`. |
| DocumentNameExamples.TailWinsExample | Applications/Converter/Core/Sources/DocumentName.cs:147-151 | `"Acme Corp - Report.pdf"` gives `"Report.pdf"`. |
| DocumentNameExamples.NeitherWinsExample | Applications/Converter/Core/Sources/DocumentName.cs:152 | `"Acme Corp - Quarterly Summary"` is kept whole. |
| DocumentNameExamples.LastSeparatorExample | Applications/Converter/Core/Sources/DocumentName.cs:140-151 | `"Acme - Draft - Final.pdf"` is split only at its last separator and gives `"Final.pdf"`. |
| DocumentNameExamples.EmptyTitleExample | Applications/Converter/Core/Sources/DocumentName.cs:136 | An empty title and an absent title both give the default name. |

## Left out

- The `PathFilter` sanitisation rules and the meaning of its five flags. `PathFilter` comes from Cube.FileSystem, which is not part of this model. The filter is a record of its input and flags, and its result goes to `resolve` unseen. The model makes no claim that the value is free of `..`, drive letters or UNC prefixes, because only the filter could guarantee that.
- `IO.Get(...).Name` and the `IO` property: this is file-system I/O. It is folded into the `resolve` parameter.
- `HasValue` comes from Cube.Mixin.String, which is not part of this model. It is modelled as "present and non-empty". The helper might also treat whitespace-only titles as having no value. The model makes no claim about them, because the model does not fix its definition.
- `Paths.HasExtension`: the approximation of `System.IO.Path.HasExtension` uses the .NET Framework separators `\`, `/` and `:`. It leaves out the `ArgumentException` that the framework method raises for characters that are invalid in a path.
- `Strings.LastIndexOf`: for the empty key it answers the string's length, where .NET answers a different index. The heuristic's key is never empty.
- `Strings.LastIndexOf`: matching is ordinal. `string.LastIndexOf(string)` compares culture-sensitively, which can ignore characters such as the soft hyphen U+00AD in the searched text. That behaviour is not modelled.
- `Debug.Assert` at line 149 is a debug-build runtime check. Here it is a proved property instead: see `DocumentNames.SplitAtSeparator`.
- `Value` (line 96) is recomputed on every read. Dafny functions are deterministic, so repeated reads agree without a separate statement.
