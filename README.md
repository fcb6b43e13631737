# PSAppDeployToolkit core helpers in Dafny

This project models five small, self-contained helpers from the PSAppDeployToolkit
C# library and proves properties of each one.

- **`LibraryUtilities.AlignUp`** rounds a C# `int` up to a multiple of `IntPtr.Size`
  (4 or 8) with the expression `(value + IntPtr.Size - 1) & ~(IntPtr.Size - 1)`.
  The model keeps the source's unchecked 32-bit arithmetic. `Int32` models a C# `int`
  as a bounded integer, wrap-around as `Wrap`, and `&` and `~` on the two's-complement
  bit pattern. The pointer size is a parameter.
- **`FileHandleInfo`** is an immutable record for one open file handle. Its constructor:
  - looks up the owning process name first;
  - then rejects a null, empty or whitespace-only file path, NT path and handle type, in that order;
  - otherwise stores every argument unchanged.
- **`MsiUtilities.GetMessageFromMsiExitCode`**, after the message has been loaded:
  - slices the first `len` characters out of its 4096-character buffer;
  - returns `null` for a blank result;
  - otherwise replaces every run of two or more whitespace characters by a single space
    (`Regex.Replace(s, @"\s{2,}", " ")`).
- **`DialogTools.TextFormattingRegex`** recognises `[url]…[/url]`, `[accent]…[/accent]`,
  `[bold]…[/bold]` and `[italic]…[/italic]`. The content is lazy and non-empty, and
  contains no newline. The model is a scanner: `IsMatchAt` gives the declarative meaning
  of a match, `MatchAt` tries the four alternatives in order, and `FirstMatch` finds the
  leftmost match.
- **`WindowInfoOptions`** is an immutable record of three optional filter lists, where
  null means "no constraint". `Permits` says which windows the options admit, and
  `Included` filters a window list by them.

Two details of the code are easy to misread, and the model follows the code:

- The `ArgumentNullException` messages say "cannot be null or empty", but the check is
  `string.IsNullOrWhiteSpace`, so whitespace-only strings are rejected too.
- A failed process lookup throws out of the constructor before any string argument is
  checked, so `Create` returns `ProcessLookupFailed`. Whether a caller skips such
  entries is outside this model.

Files: `wrappers.dfy` (`Option`, `Result`), `int32.dfy`, `strings.dfy` (the .NET
whitespace set shared by `char.IsWhiteSpace` and the regex class `\s`),
`library_utilities.dfy`, `file_handle_info.dfy`, `msi_utilities.dfy`, `dialog_tools.dfy`,
`window_info_options.dfy`.

## Model

| member | source | states |
|---|---|---|
| Int32.Wrap | src/PSADT/PSADT/Utilities/LibraryUtilities.cs:15 | unchecked `int` arithmetic: the result is congruent to the exact value modulo 2^32, and an in-range value is unchanged |
| Int32.Not | src/PSADT/PSADT/Utilities/LibraryUtilities.cs:15 | `~x` flips every bit of the 32-bit pattern of `x` |
| Int32.And | src/PSADT/PSADT/Utilities/LibraryUtilities.cs:15 | C# `&` on `int`: the bit pattern of the result is the bitwise AND of the two operands' patterns |
| Int32.AndHighMask | src/PSADT/PSADT/Utilities/LibraryUtilities.cs:15 | AND with a mask whose low `k` bits are clear and whose other bits are set clears exactly the low `k` bits |
| LibraryUtilities.MaskRoundsDown | src/PSADT/PSADT/Utilities/LibraryUtilities.cs:15 | `s & ~(p - 1)` rounds `s` down to a multiple of the pointer size, for negative `s` too |
| LibraryUtilities.AlignUp | src/PSADT/PSADT/Utilities/LibraryUtilities.cs:11-15 | the result is a multiple of the pointer size; without overflow it is at or above the input and less than one pointer size above it; a multiple is returned unchanged; on overflow the result is `int.MinValue` |
| LibraryUtilities.AlignUpIsLeast | src/PSADT/PSADT/Utilities/LibraryUtilities.cs:11-15 | without overflow, no multiple of the pointer size at or above the input is smaller than the result |
| LibraryUtilities.AlignUpIdempotent | src/PSADT/PSADT/Utilities/LibraryUtilities.cs:15 | aligning an aligned value again changes nothing |
| LibraryUtilities.AlignUpMonotone | src/PSADT/PSADT/Utilities/LibraryUtilities.cs:15 | `v <= w`, neither overflowing, implies `AlignUp(v) <= AlignUp(w)` |
| LibraryUtilities.AlignUpZero | src/PSADT/PSADT/Utilities/LibraryUtilities.cs:15 | `AlignUp(0) == 0` for both pointer sizes |
| LibraryUtilities.AlignUpSmall | src/PSADT/PSADT/Utilities/LibraryUtilities.cs:15 | every value in `1..p` rounds up to `p`, and every value in `1-p..0` rounds up to 0 |
| LibraryUtilities.AlignUpMaxValue | src/PSADT/PSADT/Utilities/LibraryUtilities.cs:15 | `AlignUp(int.MaxValue)` wraps to `int.MinValue` |
| LibraryUtilities.AlignUpLastMultiple | src/PSADT/PSADT/Utilities/LibraryUtilities.cs:15 | `int.MaxValue - p + 1` is returned unchanged, although `value + IntPtr.Size` exceeds `int.MaxValue` for it |
| Strings.IsWhiteSpace | src/PSADT/PSADT/Utilities/MsiUtilities.cs:26 | the whitespace set of `char.IsWhiteSpace` and of the regex class `\s`: U+0009 to U+000D, U+0020, U+0085, U+00A0, U+1680, U+2000 to U+200A, U+2028, U+2029, U+202F, U+205F and U+3000 |
| Strings.WhiteSpaceExamples | src/PSADT/PSADT/Utilities/MsiUtilities.cs:26 | space, tab, newline and no-break space are whitespace; a letter, the zero-width space and the Mongolian vowel separator are not |
| Strings.IsNullOrWhiteSpace | src/PSADT/PSADT/FileSystem/FileHandleInfo.cs:22-24 | `string.IsNullOrWhiteSpace`: null, or every character is whitespace |
| Strings.IsNullOrWhiteSpaceCases | src/PSADT/PSADT/FileSystem/FileHandleInfo.cs:22-24 | null and the empty string count as blank, and a one-character string is blank exactly when its character is whitespace |
| FileSystem.ProcessId | src/PSADT/PSADT/FileSystem/FileHandleInfo.cs:21 | the `(int)` cast of `UniqueProcessId`: congruent to the id modulo 2^32, and equal to it when it fits in an `int` |
| FileSystem.Create | src/PSADT/PSADT/FileSystem/FileHandleInfo.cs:19-26 | a failed process lookup aborts first; then file path, NT path and handle type are rejected in that order when null, empty or whitespace-only, naming the first offending argument with its exception message; construction succeeds exactly when no check fails, and then every field equals its argument, untrimmed |
| FileSystem.CreateFromFields | src/PSADT/PSADT/FileSystem/FileHandleInfo.cs:19-51 | every record satisfying the constructor's invariant is what the constructor builds from its own fields, so the invariant describes exactly the records construction can produce |
| FileSystem.EmptyArgumentsRejected | src/PSADT/PSADT/FileSystem/FileHandleInfo.cs:22-24 | an empty file path, an empty NT path and a whitespace-only handle type are each rejected with the matching argument, and well-formed strings are accepted |
| FileSystem.ExitedProcessRejected | src/PSADT/PSADT/FileSystem/FileHandleInfo.cs:21 | a failed process lookup makes construction fail even when every string is well formed |
| FileSystem.ProcessIdCast | src/PSADT/PSADT/FileSystem/FileHandleInfo.cs:21 | the `(int)` cast keeps process ids up to `int.MaxValue` and turns 0xFFFFFFFF into -1 |
| FileSystem.MessageNamesArgument | src/PSADT/PSADT/FileSystem/FileHandleInfo.cs:22-24 | the three exception messages are distinct, so the message carried by the error identifies the rejected argument |
| MsiUtilities.LeadingWhiteSpace | src/PSADT/PSADT/Utilities/MsiUtilities.cs:26 | the length of the longest all-whitespace prefix |
| MsiUtilities.CollapseWhiteSpace | src/PSADT/PSADT/Utilities/MsiUtilities.cs:26 | the collapse never lengthens the text, and a non-empty text stays non-empty with a first character of the same whitespace class |
| MsiUtilities.CollapseNoAdjacent | src/PSADT/PSADT/Utilities/MsiUtilities.cs:26 | the collapsed text has no two adjacent whitespace characters |
| MsiUtilities.CollapseKeepsNonWhiteSpace | src/PSADT/PSADT/Utilities/MsiUtilities.cs:26 | the non-whitespace characters are kept, in order |
| MsiUtilities.CollapseFixesNoAdjacent | src/PSADT/PSADT/Utilities/MsiUtilities.cs:26 | a text with no two adjacent whitespace characters is left unchanged |
| MsiUtilities.CollapseIdempotent | src/PSADT/PSADT/Utilities/MsiUtilities.cs:26 | collapsing twice equals collapsing once |
| MsiUtilities.CollapseAppend | src/PSADT/PSADT/Utilities/MsiUtilities.cs:26 | when the first part does not end in whitespace, the two parts collapse independently |
| MsiUtilities.MaximalRunCollapses | src/PSADT/PSADT/Utilities/MsiUtilities.cs:26 | a maximal whitespace run of two or more characters becomes one space, and the text on either side collapses independently |
| MsiUtilities.LoneWhiteSpaceKept | src/PSADT/PSADT/Utilities/MsiUtilities.cs:26 | a single whitespace character between non-whitespace text is kept as it is |
| MsiUtilities.AllWhiteSpaceIffNoNonWhiteSpace | src/PSADT/PSADT/Utilities/MsiUtilities.cs:26 | a text is blank exactly when it has no non-whitespace character |
| MsiUtilities.DoubleSpaceExample | src/PSADT/PSADT/Utilities/MsiUtilities.cs:26 | `"a  b"` collapses to `"a b"` |
| MsiUtilities.LoneTabExample | src/PSADT/PSADT/Utilities/MsiUtilities.cs:26 | `"a\tb"` is unchanged |
| MsiUtilities.NormalizeMessage | src/PSADT/PSADT/Utilities/MsiUtilities.cs:26 | the result is null exactly when the loaded text is null, empty or whitespace-only; otherwise it is not blank, has no two adjacent whitespace characters, keeps the non-whitespace characters in order and is no longer than the input |
| MsiUtilities.NormalizeIdempotent | src/PSADT/PSADT/Utilities/MsiUtilities.cs:26 | normalising a normalised message changes nothing |
| MsiUtilities.MessageFromBuffer | src/PSADT/PSADT/Utilities/MsiUtilities.cs:23-26 | slicing succeeds exactly when `0 <= len <= 4096`, and the message is then the normalisation of the trimmed first `len` characters |
| MsiUtilities.OnlyLoadedPrefixMatters | src/PSADT/PSADT/Utilities/MsiUtilities.cs:23-25 | buffers that agree on their first `len` characters give the same message |
| DialogTools.IsMatchAt | src/PSADT/PSADT.UserInterface/Dialogs/DialogTools.cs:20-23 | the declarative meaning of one alternative at a position: opening tag, at least one non-newline content character, the closing tag of the same kind, and no earlier closing tag of that kind inside the content (laziness) |
| DialogTools.ScanContent | src/PSADT/PSADT.UserInterface/Dialogs/DialogTools.cs:20-23 | the lazy scan returns the earliest end of content at which the closing tag follows, with no newline before it, and returns none only when no such end exists |
| DialogTools.MatchAlternative | src/PSADT/PSADT.UserInterface/Dialogs/DialogTools.cs:20-23 | a returned match satisfies the declarative meaning of that alternative at `i`; none is returned only when no match of that alternative exists at `i` |
| DialogTools.MatchAt | src/PSADT/PSADT.UserInterface/Dialogs/DialogTools.cs:19-24 | the alternation at one position: a returned match comes from one of the alternatives; none means that no alternative matches there |
| DialogTools.Leftmost | src/PSADT/PSADT.UserInterface/Dialogs/DialogTools.cs:19-24 | the engine's left-to-right choice of start position: the first position in a range at which a test succeeds, with every earlier position failing; none means that every position in the range fails |
| DialogTools.FindFrom | src/PSADT/PSADT.UserInterface/Dialogs/DialogTools.cs:19-24 | the first position at or after `i` where the alternation matches, with no match at any earlier position; none means that no position from `i` to the end of the text matches |
| DialogTools.FindFromMeaning | src/PSADT/PSADT.UserInterface/Dialogs/DialogTools.cs:19-24 | the result of `FindFrom` restated as declarative matches: a true match of one of the alternatives, and no tag among the alternatives matches at an earlier position (or at any position, when there is no result) |
| DialogTools.FirstMatch | src/PSADT/PSADT.UserInterface/Dialogs/DialogTools.cs:19-24 | the reported match is a true match, and no tag matches at any earlier position; none means that no tag matches anywhere |
| DialogTools.MatchIsUnique | src/PSADT/PSADT.UserInterface/Dialogs/DialogTools.cs:20-23 | at a given position an alternative has at most one lazy match |
| DialogTools.OpenTagsExclusive | src/PSADT/PSADT.UserInterface/Dialogs/DialogTools.cs:20-23 | no two different opening tags occur at the same position |
| DialogTools.ContentOfMatch | src/PSADT/PSADT.UserInterface/Dialogs/DialogTools.cs:20-24 | the captured content has at least one character and no newline, and the match is the opening tag, the content, then the closing tag of the same kind |
| DialogTools.BoldExample | src/PSADT/PSADT.UserInterface/Dialogs/DialogTools.cs:22 | `[bold]x[/bold]` matches whole, with content `x` |
| DialogTools.LazyExample | src/PSADT/PSADT.UserInterface/Dialogs/DialogTools.cs:22 | in `[bold]a[/bold]b[/bold]`, the match ends at the first closing tag |
| DialogTools.MismatchedTagsExample | src/PSADT/PSADT.UserInterface/Dialogs/DialogTools.cs:20-23 | a closing tag of another kind does not close: no match of `[bold]x[/italic]` starts at position 0 |
| DialogTools.MismatchedTagsNoMatch | src/PSADT/PSADT.UserInterface/Dialogs/DialogTools.cs:19-24 | `[bold]x[/italic]` has no match anywhere: `Match` finds nothing |
| DialogTools.NoMatchWithoutOpenTag | src/PSADT/PSADT.UserInterface/Dialogs/DialogTools.cs:19-24 | no match starts at a position whose second character cannot begin any opening tag |
| DialogTools.UpperCaseExample | src/PSADT/PSADT.UserInterface/Dialogs/DialogTools.cs:24 | matching is case-sensitive: no match of `[BOLD]x[/BOLD]` starts at position 0 |
| DialogTools.UpperCaseNoMatch | src/PSADT/PSADT.UserInterface/Dialogs/DialogTools.cs:19-24 | `[BOLD]x[/BOLD]` has no match anywhere: `Match` finds nothing |
| DialogTools.NewlineExample | src/PSADT/PSADT.UserInterface/Dialogs/DialogTools.cs:20 | a newline before the closing tag prevents the link match at position 0 of `[url]a\nb[/url]` (`.` without Singleline) |
| DialogTools.EmptyContentExample | src/PSADT/PSADT.UserInterface/Dialogs/DialogTools.cs:22 | content needs at least one character: `[bold][/bold]` has no bold match at position 0 |
| DialogTools.EmptyContentNoMatch | src/PSADT/PSADT.UserInterface/Dialogs/DialogTools.cs:19-24 | `[bold][/bold]` has no match anywhere: `Match` finds nothing |
| DialogTools.NoMatchAfterStart | src/PSADT/PSADT.UserInterface/Dialogs/DialogTools.cs:19-24 | a text with no match at position 0 and no `[` followed by a tag's first letter later on has no match at all |
| WindowManagement.Create | src/PSADT/PSADT/WindowManagement/WindowInfoOptions.cs:32-37 | every argument defaults to null, and each is stored unchanged in its field |
| WindowManagement.Permits | src/PSADT/PSADT/WindowManagement/WindowInfoOptions.cs:10-18 | a window is admitted when it passes all three filters; a null filter imposes nothing, a null or empty parent-process list imposes nothing, otherwise the title, handle or process name must match an entry |
| WindowManagement.DefaultPermitsAll | src/PSADT/PSADT/WindowManagement/WindowInfoOptions.cs:10-12 | options built with every argument left at its default admit every window |
| WindowManagement.FiltersCombineWithAnd | src/PSADT/PSADT/WindowManagement/WindowInfoOptions.cs:10-18 | a window is admitted exactly when each populated filter, taken on its own, admits it |
| WindowManagement.HandleFilterExact | src/PSADT/PSADT/WindowManagement/WindowInfoOptions.cs:15-16 | a handle filter admits exactly the windows whose handle it lists |
| WindowManagement.EmptyListsDiffer | src/PSADT/PSADT/WindowManagement/WindowInfoOptions.cs:13-18 | under the model's reading of the documentation, an empty title or handle list admits no window; the source states that an empty parent-process list admits every window |
| WindowManagement.Included | src/PSADT/PSADT/WindowManagement/WindowInfoOptions.cs:13-18 | the filtered list is no longer than the input, and every window in it is admitted |
| WindowManagement.IncludedMembers | src/PSADT/PSADT/WindowManagement/WindowInfoOptions.cs:13-18 | a window is in the filtered list exactly when it is in the input and admitted |
| WindowManagement.IncludedAppend | src/PSADT/PSADT/WindowManagement/WindowInfoOptions.cs:13-18 | filtering distributes over concatenation, so the input order is kept |
| WindowManagement.AddingFilterRestricts | src/PSADT/PSADT/WindowManagement/WindowInfoOptions.cs:15-16 | populating a null handle filter only removes windows, namely those whose handle it does not list |

## Left out

- `WindowTools.cs` is not modelled. Its routines are thin wrappers over User32 calls (`EnumWindows`, `GetWindowText`, `ShowWindow`, `SetForegroundWindow`).
- `AllControlsPage.xaml.cs` is WPF page navigation and data binding, which is UI code.
- `Kernel32.LoadLibraryEx` and `User32.LoadString` are foreign calls. The loaded buffer and `len` are inputs of `MessageFromBuffer`.
- The in-place `stackalloc` buffer is modelled as a value.
- `TrimRemoveNull` comes from an extensions file that is not part of this model, so it is a parameter.
- `Process.GetProcessById(...).ProcessName` is a live OS lookup. It is a parameter that maps a process id to a name, or to `None` when the lookup throws.
- `NtDll.SYSTEM_HANDLE_TABLE_ENTRY_INFO_EX` is not part of this model. `HandleTableEntry` stands in for it: it carries the owning process id, taken to be an unsigned pointer-sized integer, plus three opaque fields passed through unchanged.
- System handle-table enumeration, buffer growth, handle duplication, timeouts and device-path translation are not modelled.
- Readonly fields: a datatype value cannot be changed, so the fields' immutability holds by construction and no lemma states it.
- The regex group names (`UrlLink`/`UrlLinkContent`, `Accent`/`AccentText`, `Bold`/`BoldText`, `Italic`/`ItalicText`) are represented by `Tag` and by the content bounds of a `Match`, not as strings.
- Regex engine details are not modelled, nor are `Regex.Matches` iteration and `RegexOptions.Compiled`. Only the single-match semantics of the pattern is modelled.
- Text is `seq<char>`, and a Dafny `char` is a Unicode scalar value, not a UTF-16 code unit. A character that .NET stores as a surrogate pair is one `char` here. So `len` and `MessageBufferLength` in `MessageFromBuffer` count scalar values, where `Span<char>.Slice` counts code units. A lone surrogate, which a .NET string can hold, cannot be represented. Culture-specific behaviour is not modelled.
- Newtonsoft.Json attributes on `WindowInfoOptions` are serialisation plumbing.
- WindowManagement.Permits: the record only documents its filters, and the code that applies them is not part of this model. Title matching and process-name matching are therefore abstract functions, while handle membership is concrete. For an empty title or handle list the source documents only the null case. That an empty list admits no window (`EmptyListsDiffer`) is the model's reading of "only windows … that match one of the strings in this array will be included". The model does not take it from code.
- LibraryUtilities.AlignUp: the model assumes the project compiles with unchecked arithmetic, the C# default. In a checked context `value + IntPtr.Size` throws `OverflowException` for every `value > int.MaxValue - p`. That set is one input larger than the one the model maps to `int.MinValue` (`!NoOverflow`): it also holds `value = int.MaxValue - p + 1`, which the unchecked code and the model return unchanged (`AlignUpLastMultiple`).
