# ZimLabs.CoreLib filter entry and extension helpers in Dafny

This project models two parts of ZimLabs.CoreLib.

The first part is the filter entry (`FilterEntry`) and its kind (`FilterType`).
A filter entry is built from a raw search pattern and a wildcard token, which defaults to `"*"`.
It stores three things:

- the search value: the pattern with every wildcard removed by `string.Replace`;
- the filter kind, which the extension `ToFilterType` computes;
- the original pattern.

The second part is a set of helpers from `Extensions`:

- the case-insensitive string predicates `ContainsIgnoreCase` and `EqualsIgnoreCase`;
- the date/time helpers `SetTime`, `SetStartOfDay` and `SetEndOfDay`.

The files are:

- `strings.dfy` (module `Strings`): the .NET string behaviour these rely on. It holds ordinal occurrence of a substring, subsequences, and per-character case folding (ASCII upper-casing).
- `filter_type.dfy` (module `FilterTypes`): the enum as a datatype, with its underlying integers.
- `filter_entry.dfy` (module `DataObjects`): the wildcard removal `RemoveOccurrences`, its properties, and the class `FilterEntry`.
- `extensions.dfy` (module `Extensions`): the string predicates, a `DateTime` record and the time setters.

`FilterEntry` is a class, because its properties are settable and the constructor assigns them one after another.
`SetTime` is a method, because it overwrites its hour, minute and second step by step.
That method is proved equal to the function `WithTime`.
`SetStartOfDay` and `SetEndOfDay` are functions built on `WithTime`, just as the source builds them on `SetTime`.

Three points about the code's behaviour shape the model:

- An empty wildcard is an error, not a no-op: `string.Replace` throws on an empty token (see "## Left out").
- The search value is not always free of the wildcard. With a token longer than one character, a single left-to-right pass can leave a new occurrence behind: `"aabb"` with `"ab"` gives `"ab"` (`MultiCharWildcardMayRemain`). Absence is proved only for one-character tokens.
- The filter kind is computed on the raw pattern, not on the stripped value.

## Model

| member | source | states |
|---|---|---|
| FilterTypes.Ordinal | src/ZimLabs.CoreLib/ZimLabs.CoreLib/Common/FilterType.cs:6-27 | every member's underlying integer is one of 0..3 |
| FilterTypes.FromOrdinal | src/ZimLabs.CoreLib/ZimLabs.CoreLib/Common/FilterType.cs:11-26 | each integer 0..3 names the member with that ordinal |
| FilterTypes.OrdinalRoundTrip | src/ZimLabs.CoreLib/ZimLabs.CoreLib/Common/FilterType.cs:11-26 | going from a member to its ordinal and back gives the same member |
| FilterTypes.OrdinalInjective | src/ZimLabs.CoreLib/ZimLabs.CoreLib/Common/FilterType.cs:6-27 | members with equal ordinals are equal, so the four members are distinct |
| FilterTypes.DefaultValue | src/ZimLabs.CoreLib/ZimLabs.CoreLib/Common/FilterType.cs:11 | `default(FilterType)` is the member with ordinal 0 |
| FilterTypes.AllFilterTypes | src/ZimLabs.CoreLib/ZimLabs.CoreLib/Common/FilterType.cs:11-26 | four members in declaration order: position i holds the member with ordinal i |
| FilterTypes.AllFilterTypesExhaustive | src/ZimLabs.CoreLib/ZimLabs.CoreLib/Common/FilterType.cs:6-27 | the datatype has exactly the four declared members: every value of it is one of them |
| DataObjects.RemoveOccurrences | src/ZimLabs.CoreLib/ZimLabs.CoreLib/DataObjects/FilterEntry.cs:37 | `Replace(wildcard, "")` never lengthens the pattern; if the length is kept, the pattern is returned unchanged |
| DataObjects.RemoveOccurrencesSubsequence | src/ZimLabs.CoreLib/ZimLabs.CoreLib/DataObjects/FilterEntry.cs:37 | the search value is a subsequence of the pattern |
| DataObjects.RemoveOccurrencesAbsent | src/ZimLabs.CoreLib/ZimLabs.CoreLib/DataObjects/FilterEntry.cs:37 | a pattern without the wildcard comes back unchanged |
| DataObjects.RemoveOccurrencesUnchanged | src/ZimLabs.CoreLib/ZimLabs.CoreLib/DataObjects/FilterEntry.cs:37 | conversely, an unchanged pattern holds no wildcard |
| DataObjects.RemoveOccurrencesWholeTokens | src/ZimLabs.CoreLib/ZimLabs.CoreLib/DataObjects/FilterEntry.cs:37 | the length drops by a whole multiple of the wildcard's length |
| DataObjects.RemoveCharMultiset | src/ZimLabs.CoreLib/ZimLabs.CoreLib/DataObjects/FilterEntry.cs:37 | for a one-character wildcard, the result holds every other character as often as the pattern and the wildcard character not at all |
| DataObjects.RemoveCharAbsentAndLength | src/ZimLabs.CoreLib/ZimLabs.CoreLib/DataObjects/FilterEntry.cs:37 | for a one-character wildcard, no wildcard is left, and the length is the pattern's length minus the number of wildcards |
| DataObjects.RemoveCharConcat | src/ZimLabs.CoreLib/ZimLabs.CoreLib/DataObjects/FilterEntry.cs:37 | for a one-character wildcard, removing from a concatenation equals concatenating the removals |
| DataObjects.StripLeadingTrailingWildcard | src/ZimLabs.CoreLib/ZimLabs.CoreLib/DataObjects/FilterEntry.cs:37 | `*s`, `s*` and `*s*` with a wildcard-free `s` all give the search value `s` |
| DataObjects.MultiCharWildcardMayRemain | src/ZimLabs.CoreLib/ZimLabs.CoreLib/DataObjects/FilterEntry.cs:37 | one pass is not a fixed point: removing `ab` from `aabb` leaves `ab`, which still contains the wildcard |
| DataObjects.FilterEntry.constructor | src/ZimLabs.CoreLib/ZimLabs.CoreLib/DataObjects/FilterEntry.cs:13-28 | the empty entry has an empty value, an empty original value and the kind `Equals` (ordinal 1), which is not the enum's zero value `Contains` |
| DataObjects.FilterEntry.FromPattern | src/ZimLabs.CoreLib/ZimLabs.CoreLib/DataObjects/FilterEntry.cs:35-40 | requires a non-empty wildcard. Value is the pattern with the wildcards removed: a subsequence, unchanged when no wildcard occurs, wildcard-free for a one-character wildcard. The kind is `ToFilterType` of the raw pattern and wildcard. OriginalValue is the raw pattern |
| Extensions.ContainsIgnoreCase | src/ZimLabs.CoreLib/ZimLabs.CoreLib/Extensions.cs:15-21 | true only for a non-empty value and substring, and only when the substring is no longer than the value |
| Extensions.ContainsIgnoreCaseCharwise | src/ZimLabs.CoreLib/ZimLabs.CoreLib/Extensions.cs:15-21 | true exactly when both are non-empty and the substring lines up with some window of the value, character by character up to case |
| Extensions.EqualsIgnoreCase | src/ZimLabs.CoreLib/ZimLabs.CoreLib/Extensions.cs:29-35 | true exactly when both are non-empty, have the same length and agree character by character up to case |
| Extensions.EmptyInputsNeverMatch | src/ZimLabs.CoreLib/ZimLabs.CoreLib/Extensions.cs:15-35 | an empty argument makes both predicates false, so `EqualsIgnoreCase("", "")` is false |
| Extensions.EqualsIgnoreCaseSymmetric | src/ZimLabs.CoreLib/ZimLabs.CoreLib/Extensions.cs:29-35 | equality ignoring case is symmetric |
| Extensions.EqualsIgnoreCaseReflexive | src/ZimLabs.CoreLib/ZimLabs.CoreLib/Extensions.cs:29-35 | a string equals itself exactly when it is non-empty |
| Extensions.EqualsIgnoreCaseTransitive | src/ZimLabs.CoreLib/ZimLabs.CoreLib/Extensions.cs:29-35 | equality ignoring case is transitive |
| Extensions.EqualsImpliesContains | src/ZimLabs.CoreLib/ZimLabs.CoreLib/Extensions.cs:15-35 | strings equal up to case also contain each other up to case |
| Extensions.IgnoreCaseInsensitiveToFolding | src/ZimLabs.CoreLib/ZimLabs.CoreLib/Extensions.cs:15-35 | neither predicate changes when an argument is replaced by its case-folded form |
| Extensions.IgnoreCaseExamples | src/ZimLabs.CoreLib/ZimLabs.CoreLib/Extensions.cs:15-35 | `invoice` equals `INVOICE`; `invoices` does not; `mylogfile.txt` contains `LOG` |
| Extensions.WithTime | src/ZimLabs.CoreLib/ZimLabs.CoreLib/Extensions.cs:148-160 | same date, valid time of day, zero milliseconds; each component is the requested one or, when it was out of range, 0 |
| Extensions.SetTime | src/ZimLabs.CoreLib/ZimLabs.CoreLib/Extensions.cs:148-160 | the step-by-step clamping equals `WithTime`: the date is kept, the time is valid, sub-second precision is dropped, and an in-range request is taken as given |
| Extensions.SetStartOfDay | src/ZimLabs.CoreLib/ZimLabs.CoreLib/Extensions.cs:125-128 | same date at 00:00:00.000 |
| Extensions.SetEndOfDay | src/ZimLabs.CoreLib/ZimLabs.CoreLib/Extensions.cs:135-138 | same date at 23:59:59.000 |
| Extensions.WithTimeDependsOnlyOnDate | src/ZimLabs.CoreLib/ZimLabs.CoreLib/Extensions.cs:148-160 | the result depends only on the date, so a second call overrides the first |
| Extensions.WithTimeFixedPoint | src/ZimLabs.CoreLib/ZimLabs.CoreLib/Extensions.cs:148-160 | a valid whole-second value is unchanged by setting its own time |
| Extensions.SetStartOfDayIdempotent | src/ZimLabs.CoreLib/ZimLabs.CoreLib/Extensions.cs:125-128 | start of day is idempotent and ignores a previous end of day |
| Extensions.SetEndOfDayIdempotent | src/ZimLabs.CoreLib/ZimLabs.CoreLib/Extensions.cs:135-138 | end of day is idempotent and ignores a previous start of day |

## Left out

- `ToFilterType` (called at FilterEntry.cs:38) is not part of this model. Its body is not available, so the constructor takes it as a function parameter `toFilterType` of the raw pattern and the wildcard. Nothing is claimed about how wildcard positions map to kinds.
- The filter evaluator that applies an entry to a candidate value is not part of this model.
- `Core.GetBaseDirPath` is left out: it queries the assembly location and the file system.
- `ConvertToFileSize` is left out: it reads a file's length, computes with `Math.Pow` doubles and uses culture-dependent number formatting.
- Both `GetAttribute<T>` overloads are left out: they rely on runtime reflection.
- `ToInt` is left out: it wraps culture-sensitive `int.TryParse`.
- Extensions.ContainsIgnoreCase and Extensions.EqualsIgnoreCase: `OrdinalIgnoreCase` folds characters with the full Unicode upper-case mapping. The model folds only ASCII letters (`Strings.FoldChar`).
- Extensions.ContainsIgnoreCase and Extensions.EqualsIgnoreCase: null strings are not modelled. In the source, `IsNullOrEmpty` treats them like the empty string, so they give false.
- Extensions.SetTime: the `DateTime` record has millisecond precision. Ticks below a millisecond and `DateTime.Kind` (which the new value resets to unspecified) are not modelled. The date is assumed to be a valid calendar date, so the `DateTime` constructor never throws here.
- The C# `int` parameters of `SetTime` are unbounded integers here. Every value outside the clamping ranges becomes 0 either way, so the 32-bit width does not change the result.
- FilterTypes.AllFilterTypesExhaustive: C# enums are open, so a cast such as `(FilterType)4` is a legal value that could be stored in `FilterEntry.FilterType` or returned by `ToFilterType`. Such values are not modelled; `toFilterType` is taken to return one of the four named members.
- DataObjects.FilterEntry.FromPattern: for an empty wildcard, .NET `Replace` throws an `ArgumentException` (FilterEntry.cs:37). The model replaces that exception with `requires wildcard != ""`.
- DataObjects.FilterEntry.FromPattern: Dafny strings cannot be null. A null pattern (`NullReferenceException` at FilterEntry.cs:37) and a null wildcard (`ArgumentNullException` from `Replace`) are not modelled.
