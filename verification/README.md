# Stringy in Dafny

A model of the `Stringy` value type of the PHP library Stringy
(`src/Stringy.php`). It covers indexed access, search and affixes, padding
and truncation, the longest-common analysers, and the case-style rewriters.

A Stringy is a string plus an encoding tag, and every method returns a new
instance. Here it is the datatype `Value.Stringy(str, encoding)`:

- `str` is a `seq<char>` of codepoints.
- `encoding` is a tag that is carried along and never interpreted.

The library's calls to `UTF8::strlen/substr/strpos/strrpos` are given PHP's
`mb_strlen/mb_substr/mb_strpos/mb_strrpos` meaning over that sequence, in
module `Codepoints`:

- negative starts and lengths count from the end;
- an out-of-range offset finds nothing;
- an empty needle finds nothing.

Several parts of the source are not defined here and come in as parameters:

- The case maps and the character classes that the regular expressions use
  (`\s`, `\w`, `\d`, `[A-Z]`) come in as a `Classes.CharClasses` value. Its
  fields are `isSpace`, `isWord`, `isDigit`, `upper` and `lower`.
- The ambient `mb_internal_encoding()` comes in as a parameter `internal`
  wherever the source calls `create` without an encoding.

Exceptions become the `Result` datatype of module `Failures`.

Modules follow the structure of the class:

| module | what it holds |
|---|---|
| `Failures` | `Option`, `Result`, the exception kinds, `Min`/`Max` |
| `Codepoints` | the mbstring primitives; `explode`/`implode` as `Explode`/`Join`; literal replace-all |
| `Classes` | the abstract character classes and case maps |
| `Value` | construction, length, ArrayAccess, `substr`/`at`/`chars`, windows, builders |
| `Search` | `indexOf`, `between`, the contains/starts/ends families, affixes, first/last splits, `countSubstr` |
| `Padding` | `pad*`, `applyPadding`, `truncate`, `safeTruncate` |
| `Common` | longest common prefix, suffix and substring |
| `Runs` | maximal runs of a class, and `preg_replace('/[class]+/', rep)` as `CollapseRuns` |
| `Casing` | `trim*`, `collapseWhitespace`, `toLowerCase`/`toUpperCase`, `upperCaseFirst`/`lowerCaseFirst` |
| `Styles` | `delimit`, `dasherize`, `underscored`, `camelize`, `upperCamelize` |
| `Names` | `titleize`, `capitalizePersonalName`, `capitalizePersonalNameByDelimiter` |
| `Splitting` | `split`, `lines`, `toSpaces`, `toTabs` |

Where the code and its documentation disagree, the model follows the code:

- `startsWith` and `slice` are both modelled as written and as intended; see
  Findings. The methods that call `startsWith` (`startsWithAny`, `ensureLeft`,
  `removeLeft`) are modelled on the call as written. Their contracts say what
  they do for an encoding name that PHP's `(int)` reads as 0, such as
  "UTF-8", and for one that reads as a positive integer, such as "8bit".
- `afterFirst` does not keep the receiver's encoding when nothing is found,
  and the model says so.

One branch follows the test rows rather than the code as read here.
`safeTruncate` calls `substr($truncated, 0, false)` when the cut split a word
and the cut part has no space. Read as `mb_substr`, as `UTF8::substr` is
everywhere else in this model, a `false` length is 0: the cut part would
become '' and only the suffix would be returned, "..." for the row at line
1723 of `tests/StringyOrigTest.php`. The expected values at lines 1723 and
1734 keep the hard cut instead, and so does the model. This relies on
`UTF8::substr`, whose code is not part of this model, treating a `false`
length as "no cut".

## Model

| member | source | states |
|---|---|---|
| Value.Create | src/Stringy.php:45-85 | Arrays and objects without `__toString` are refused with InvalidArgumentException and nothing else is. The text is the string, its scalar rendering or its `__toString`. A truthy encoding argument is kept; otherwise the internal encoding is used |
| Value.CreateToString | src/Stringy.php:92-95 | Creating from a string always succeeds, and `__toString` gives that string back |
| Value.ToString | src/Stringy.php:92-95 | Creating a value from the returned text with the value's encoding gives the same value back |
| Value.GetEncoding | src/Stringy.php:624-627 | Creating a value from the text with the returned encoding gives the same value back |
| Value.Length | src/Stringy.php:258-261 | For a non-negative index, being below the length is the same as being a valid ArrayAccess offset |
| Value.Count | src/Stringy.php:397-400 | `count()` equals `length()` and the number of `chars()` |
| Value.Substr | src/Stringy.php:232-251 | A null length means "to the end". Otherwise `mb_substr`: a negative start counts from the end, clamped to the first codepoint; a non-negative length gives that many codepoints, clamped; a negative length leaves that many off the end; a start past the end gives '' |
| Value.SubstrNegative | src/Stringy.php:232-251 | On "foobar", `substr(-3, 2)` is "ba", `substr(1, -1)` is "ooba" and `substr(-3, -1)` is "ba" |
| Value.At | src/Stringy.php:667-670 | The codepoint at a non-negative index, or the one counted from the end for a negative index. Past the end gives ''. Before the start gives the first codepoint, as `mb_substr` clamps |
| Value.Chars | src/Stringy.php:647-658 | One single-codepoint string per position, in order; concatenated they give the text back |
| Value.OffsetExists | src/Stringy.php:1139-1150 | True exactly when `0 <= i < len` or `1 <= -i <= len` |
| Value.OffsetGet | src/Stringy.php:1164-1179 | Fails with OutOfBounds exactly when the offset does not exist; otherwise gives the one codepoint at the offset, counting from the end for a negative offset |
| Value.OffsetSet | src/Stringy.php:1190-1194 | Always fails: the value is immutable |
| Value.OffsetUnset | src/Stringy.php:1204-1208 | Always fails: the value is immutable |
| Value.First | src/Stringy.php:606-617 | '' for n < 0, else the first min(n, len) codepoints |
| Value.Last | src/Stringy.php:994-1005 | '' for n <= 0, else the last min(n, len) codepoints |
| Value.SliceAsWritten | src/Stringy.php:1803-1818 | The code as written: '' when 0 <= end <= start; the window start..end for a positive end; to the end of the text with no end; a negative start counted from the end, with a non-negative end read as a length `end - start`; a negative end before the start is not caught |
| Value.SliceNegativeEndOvershoot | src/Stringy.php:1809-1815 | `slice(4, -3)` of "foobar" as written gives "a", not '' |
| Value.Slice | src/Stringy.php:1803-1818 | For start >= 0: the codepoints from start up to end, with a negative end counted from the end of the string, and empty whenever end falls at or before start. For a negative start: the code as written, counting start from the end and reading `end - start` codepoints for a non-negative end |
| Value.SliceNegativeStart | src/Stringy.php:1803-1818 | `slice(-2, 3)` of "foobar" gives "ar", `slice(-3, 5)` gives "bar" and `slice(-4)` gives "obar" |
| Value.Append | src/Stringy.php:104-107 | The receiver followed by the argument, same encoding |
| Value.Prepend | src/Stringy.php:1341-1344 | The argument followed by the receiver, same encoding |
| Value.Surround | src/Stringy.php:1873-1878 | The argument on both sides of the receiver, with the receiver intact in the middle |
| Value.Insert | src/Stringy.php:795-808 | An index past the end leaves the value unchanged. Otherwise the substring is spliced in at the position `mb_substr` resolves the index to |
| Value.InsertCutOut | src/Stringy.php:795-808 | After an insert, the inserted text sits at the insert position, and cutting it out gives the original back |
| Value.Repeat | src/Stringy.php:1393-1398 | Length multiplier·len; starts with the text and repeats with period len |
| Value.Reverse | src/Stringy.php:1475-1480 | The codepoints in reverse order |
| Value.ReverseInvolution | src/Stringy.php:1475-1480 | Reversing twice gives the value back |
| Value.AtNegativeMirrors | src/Stringy.php:667-670 | `at(-k)` is `at(len - k)` for 1 <= k <= len |
| Codepoints.Strpos | src/Stringy.php:227-230 | mb_strpos: the first occurrence at or after the resolved offset. None when the needle is empty, the offset is out of range, or there is no occurrence |
| Codepoints.Strrpos | src/Stringy.php:782-785 | mb_strrpos: the last occurrence at or after a non-negative offset, or the last one starting no later than len + offset for a negative offset. None when there is no occurrence |
| Codepoints.Explode | src/Stringy.php:1830-1863 | explode on a non-empty separator: at least one part, the parts joined by the separator give the text, no part contains the separator, and every cut is at the leftmost occurrence in what remains |
| Codepoints.ExplodeStep | src/Stringy.php:1830-1863 | explode cuts at the first occurrence and explodes the rest after it |
| Codepoints.ExplodeLeftmost | src/Stringy.php:1830-1863 | explode of "aaa" on "aa" gives '' and "a": the cut is at the leftmost occurrence |
| Codepoints.SubstrCountDisjoint | src/Stringy.php:412-422 | "aa" occurs twice in "aaaa": counted occurrences do not overlap and none is missed |
| Codepoints.ExplodeJoin | src/Stringy.php:1830-1863 | Exploding a join gives the parts back when no part holds the separator's first codepoint |
| Codepoints.ExplodeOccurs | src/Stringy.php:1830-1863 | There is more than one part exactly when the separator occurs |
| Codepoints.SubstrCount | src/Stringy.php:412-422 | substr_count: None for an empty needle; otherwise one less than the number of pieces explode makes, so it fits in the text and is zero exactly when the needle does not occur |
| Codepoints.SubstrCountStep | src/Stringy.php:412-422 | With a first occurrence at p, the count is one more than the count after it, so the counted occurrences are the leftmost non-overlapping ones |
| Codepoints.ReplaceAll | src/Stringy.php:2032-2055 | str_replace leaves the text unchanged for an empty search or one that does not occur, and otherwise puts the replacement between the pieces explode makes |
| Codepoints.ReplaceAllStep | src/Stringy.php:2032-2055 | With a first occurrence at p, the result is the text before p, the replacement, and the replacement applied to the text after the occurrence |
| Search.IndexOf | src/Stringy.php:227-230 | The least position at or after the offset where the needle occurs, or None exactly when there is none. None for an empty needle or an offset outside the text |
| Search.IndexOfLast | src/Stringy.php:782-785 | The greatest position in the offset's window where the needle occurs, or None exactly when there is none, for either sign of the offset. None for an empty needle or an offset outside the text |
| Search.FirstUnique | src/Stringy.php:227-230 | The first occurrence at or after an offset is unique |
| Search.Between | src/Stringy.php:201-215 | Never longer than the text; '' when either delimiter is empty |
| Search.BetweenFound | src/Stringy.php:201-215 | With the first `start` at or after the offset at i, and the first `end` after it at j, the result is exactly the text from i+|start| to j |
| Search.BetweenNoStart | src/Stringy.php:201-215 | '' when `start` does not occur at or after the offset |
| Search.BetweenNoEnd | src/Stringy.php:201-215 | '' when `end` does not occur after the first `start` |
| Search.Contains | src/Stringy.php:355-364 | True exactly when the needle is non-empty and occurs, after folding both sides with the lower-case map when the search is case-insensitive |
| Search.ContainsAny | src/Stringy.php:376-390 | True exactly when some needle is contained; false for an empty list |
| Search.ContainsAll | src/Stringy.php:329-343 | True exactly when the list is non-empty and every needle is contained |
| Search.StartsWithAsWritten | src/Stringy.php:488-498 | The code as written: a receiver whose encoding name starts with a positive number (as `(int)` reads it) never starts with anything. Otherwise it agrees with the corrected StartsWith |
| Search.StartsWithEightBit | src/Stringy.php:488-498 | With encoding "8bit", "foo bar baz" as written does not start with "foo" |
| Search.StartsWith | src/Stringy.php:488-498 | True exactly when the needle is non-empty and a prefix, with optional case folding |
| Search.EndsWith | src/Stringy.php:554-572 | True exactly when the needle is a suffix, with optional case folding; '' is a suffix of anything |
| Search.TailCompare | src/Stringy.php:554-572 | Comparing the needle with the last |needle| codepoints is the same as testing for a suffix |
| Search.StartsWithAny | src/Stringy.php:510-523 | True exactly when some needle passes startsWith as written; false for an empty list. Never true when the encoding name reads as a positive integer; otherwise true exactly when some needle is a non-empty start |
| Search.EndsWithAny | src/Stringy.php:584-597 | True exactly when some needle is an end; false for an empty list |
| Search.EnsureLeft | src/Stringy.php:467-476 | The result always starts with the substring and is either the receiver or the substring followed by it. A missing prefix is always prepended. A present non-empty prefix is kept when the encoding name reads as 0, and prepended again when it reads as a positive integer |
| Search.EnsureLeftIdempotent | src/Stringy.php:467-476 | Ensuring the same prefix twice is ensuring it once when the encoding name reads as 0; with a positive reading the prefix is added twice |
| Search.EnsureRight | src/Stringy.php:533-542 | The result always ends with the substring. It is the receiver if that already ended with it, else the receiver followed by the substring |
| Search.EnsureRightIdempotent | src/Stringy.php:533-542 | Ensuring the same suffix twice is ensuring it once |
| Search.RemoveLeft | src/Stringy.php:1353-1364 | The result is the receiver or the receiver without a prefix equal to the substring. A missing prefix changes nothing. A present prefix is dropped when the encoding name reads as 0, and kept when it reads as a positive integer |
| Search.RemoveLeftInverse | src/Stringy.php:1353-1364 | When the encoding name reads as 0, removeLeft undoes prepend and undoes ensureLeft when that prepended, and ensureLeft undoes removeLeft. With a positive reading removeLeft undoes neither |
| Search.RemoveRight | src/Stringy.php:1373-1384 | Drops the substring exactly when it is a suffix; otherwise the value is unchanged |
| Search.RemoveRightInverse | src/Stringy.php:1373-1384 | removeRight undoes append, and undoes ensureRight when that appended |
| Search.AfterFirst | src/Stringy.php:2318-2333 | The text after the first occurrence. When there is none, '' in the internal encoding rather than the receiver's |
| Search.BeforeFirst | src/Stringy.php:2369-2385 | The text before the first occurrence, '' when there is none; it never contains the separator |
| Search.AfterLast | src/Stringy.php:2343-2359 | The text after the last occurrence, '' when there is none; it never contains the separator |
| Search.BeforeLast | src/Stringy.php:2395-2411 | The text before the last occurrence, '' when there is none |
| Search.FirstSplitRoundTrip | src/Stringy.php:2318-2385 | beforeFirst + separator + afterFirst is the text, when the separator occurs |
| Search.LastSplitRoundTrip | src/Stringy.php:2343-2411 | beforeLast + separator + afterLast is the text, when the separator occurs |
| Search.CountSubstr | src/Stringy.php:412-422 | None exactly for an empty needle. Otherwise one less than the number of pieces explode makes: a count whose occurrences fit in the text, zero exactly when the needle does not occur |
| Search.CountSubstrStep | src/Stringy.php:412-422 | With a first occurrence at p, the count is one more than the count of the text after it |
| Search.CountSubstrOfJoin | src/Stringy.php:412-422 | Counting the separator in a join of n parts gives n - 1, when no part holds its first codepoint |
| Padding.Segment | src/Stringy.php:1266-1302 | A pad segment of the requested length, made of the pad string repeated and cut |
| Padding.ApplyPadding | src/Stringy.php:1266-1302 | An empty pad string or no positive total leaves the value unchanged. Otherwise the original sits intact between a left and a right segment of the requested lengths, each made of the pad string repeated |
| Padding.PadLeft | src/Stringy.php:1251-1254 | Length max(n, len), the original as a suffix, pad-string fill in front; unchanged for an empty pad or n <= len |
| Padding.PadRight | src/Stringy.php:1313-1316 | Length max(n, len), the original as a prefix, pad-string fill behind; unchanged for an empty pad or n <= len |
| Padding.PadBoth | src/Stringy.php:1327-1332 | Length max(n, len). The deficit d is split floor(d/2) left and ceil(d/2) right, with the original in the middle |
| Padding.Pad | src/Stringy.php:1224-1240 | Fails with InvalidArgument exactly when the type is not left, right or both; otherwise it is the matching pad function |
| Padding.Truncate | src/Stringy.php:2133-2148 | Unchanged when n >= len. For \|suffix\| <= n < len, the first n - \|suffix\| codepoints then the suffix, length exactly n. For a smaller n, the `mb_substr` reading of a negative length |
| Padding.SafeTruncate | src/Stringy.php:1493-1521 | Unchanged when n >= len. Otherwise the result ends with the suffix and its body is a prefix of the hard cut, at most n long when the suffix fits. With no space in the text it equals truncate |
| Padding.SafeTruncateBacksOff | src/Stringy.php:1505-1518 | When the cut splits a word and the cut part has a space, the result is the cut part up to its last space, then the suffix |
| Padding.SafeTruncateKeepsCut | src/Stringy.php:1505-1518 | When the cut does not split a word, or the cut part has no space, the result is truncate's |
| Padding.CutSplitsWordInside | src/Stringy.php:1508-1509 | The loose `!==` test says "splits a word" unless the cut lands exactly between a word's end and a space |
| Common.ReadChar | src/Stringy.php:1032-1049 | The one codepoint at a position, counted from the end when negative |
| Common.LongestCommonPrefix | src/Stringy.php:1032-1049 | A common prefix of both strings that cannot be extended by one more codepoint |
| Common.PrefixMaximal | src/Stringy.php:1032-1049 | No common prefix is longer than one that cannot be extended |
| Common.LongestCommonSuffix | src/Stringy.php:1058-1075 | A common suffix of both strings that cannot be extended by one more codepoint |
| Common.SuffixMaximal | src/Stringy.php:1058-1075 | No common suffix is longer than one that cannot be extended |
| Common.SufSound | src/Stringy.php:1113-1121 | Each table cell is the length of a common substring ending at that cell |
| Common.SufComplete | src/Stringy.php:1113-1121 | Every common substring is covered by the cell where it ends |
| Common.BestStep | src/Stringy.php:1113-1118 | The strict `>` update keeps the longest match and its first end row |
| Common.FillRow | src/Stringy.php:1109-1122 | One row of the table filled from the previous row, with the best match updated |
| Common.ScanTable | src/Stringy.php:1101-1123 | After every row, `len` is the largest cell and `end` the first row that reaches it |
| Common.BestIsLongest | src/Stringy.php:1079-1128 | The best match is a common substring, none is longer, and no equally long one starts earlier in the receiver |
| Common.LongestCommonSubstring | src/Stringy.php:1085-1128 | '' when either input is empty. Otherwise a substring of both that no common substring is longer than; among the longest, the earliest in the receiver |
| Runs.LeadingRun | src/Stringy.php:284-293 | The leading run is maximal: the codepoint after it is outside the class |
| Runs.LeadingRunExact | src/Stringy.php:284-293 | A class prefix followed by a non-class codepoint is exactly the leading run |
| Runs.TrailingRun | src/Stringy.php:284-293 | The trailing run is all in the class and maximal |
| Runs.CollapseRunsClass | src/Stringy.php:270-273 | After collapsing, every class codepoint comes from the replacement. With a one-codepoint class replacement, no two class codepoints are adjacent |
| Runs.CollapseRunsPlain | src/Stringy.php:270-273 | Collapsing leaves text without class codepoints unchanged |
| Runs.CollapseRunsSplit | src/Stringy.php:270-273 | A maximal run between non-class codepoints contributes exactly one replacement between the collapsed text before and after it |
| Runs.CollapseSpaced | src/Stringy.php:454-456 | Collapsing class runs between words free of the class puts exactly one replacement between each two words |
| Casing.TrimLeft | src/Stringy.php:2092-2101 | Removes exactly the longest prefix of stripped codepoints (whitespace, or the given list when it is truthy) |
| Casing.TrimRight | src/Stringy.php:2112-2121 | Removes exactly the longest suffix of stripped codepoints |
| Casing.Trim | src/Stringy.php:284-293 | The result is a window of the text. Everything outside it is stripped, and neither of its ends could be stripped |
| Casing.TrimIdempotent | src/Stringy.php:284-293 | Trimming twice is trimming once |
| Casing.TrimKeeps | src/Stringy.php:284-293 | Trimming keeps the codepoint-by-codepoint properties of its input and leaves no whitespace at the ends |
| Casing.CollapseWhitespace | src/Stringy.php:270-273 | Keeps the encoding; what it computes is stated by Casing.CollapseWhitespaceShape and Casing.CollapseWhitespaceWords |
| Casing.CollapseWhitespaceShape | src/Stringy.php:270-273 | No whitespace at either end, no two whitespace codepoints side by side, and only ' ' as whitespace |
| Casing.CollapseWhitespaceWords | src/Stringy.php:263-273 | Non-empty whitespace-free words with non-empty whitespace runs between them come out as the words joined by single spaces |
| Casing.ToLowerCase | src/Stringy.php:1945-1950 | Each codepoint through the lower-case map, same length |
| Casing.ToUpperCase | src/Stringy.php:2076-2081 | Each codepoint through the upper-case map, same length |
| Casing.ToLowerCaseIdempotent | src/Stringy.php:1945-1950 | Lower-casing twice is lower-casing once, for an idempotent map |
| Casing.MapFirst | src/Stringy.php:756-769 | Only the first codepoint changes |
| Casing.UpperCaseFirst | src/Stringy.php:756-769 | The first codepoint upper-cased, the rest unchanged |
| Casing.LowerCaseFirst | src/Stringy.php:2265-2273 | The first codepoint lower-cased, the rest unchanged |
| Casing.CaseFirstInverse | src/Stringy.php:756-769 | lowerCaseFirst undoes upperCaseFirst when the lower-case map undoes the upper-case map on the first codepoint |
| Styles.MarkCapitalsSplit | src/Stringy.php:446-457 | The `\B([A-Z])` marking distributes over concatenation, because it judges each boundary on the original text |
| Styles.MarkCapitalsPlain | src/Stringy.php:446-457 | Text without ASCII capitals is not marked |
| Styles.DelimitText | src/Stringy.php:446-457 | Every separator codepoint in the result is from the delimiter. With a one-codepoint separator delimiter, separators never stand side by side |
| Styles.Delimit | src/Stringy.php:446-457 | The same for the value after trimming, keeping the encoding |
| Styles.DelimitPlain | src/Stringy.php:446-457 | Text without capitals or separators is only lower-cased |
| Styles.MarkCapitalInside | src/Stringy.php:446-457 | A capital between two word codepoints gets a '-' in front of it |
| Styles.DelimitSplitsAtCapital | src/Stringy.php:446-457 | A single inner capital of a word becomes the boundary between two lower-cased halves joined by the delimiter |
| Styles.DelimitWords | src/Stringy.php:446-457 | Words free of separators and capitals with separator runs between them come out as the lower-cased words joined by exactly one delimiter |
| Styles.DelimitSpacedWords | tests/StringyOrigTest.php:502-507 | The same for a whole value, and so for dasherize ('-') and underscored ('_'): "test case" and "test_case" give "test-case" |
| Styles.MarkCapitalsShift | src/Stringy.php:446-457 | Marking a position reads only the codepoint before it, so dropping a prefix up to the one before changes nothing |
| Styles.MarkCapitalsPrefix | src/Stringy.php:446-457 | Marking a position reads nothing after it |
| Styles.MarkWord | src/Stringy.php:446-457 | A word whose only capital is its first codepoint gets no mark |
| Styles.MarkBeforeCapital | src/Stringy.php:446-457 | A capital word codepoint after a word codepoint gets '-' in front; marking on either side of it is unchanged |
| Styles.MarkWords | src/Stringy.php:446-457 | Word codepoints where each later word starts with its only capital: marking joins the words with '-' |
| Styles.MarkWordsStep | src/Stringy.php:450 | Marking words run together puts '-' at the seam before a capital that starts the second word, and marks each side on its own |
| Styles.DelimitDashed | src/Stringy.php:452-454 | Separator-free words joined by '-', lower-cased and with separator runs folded, are the lower-cased words joined by one delimiter |
| Styles.DelimitCapitals | tests/StringyOrigTest.php:508-509 | Such text comes out as the lower-cased words joined by one delimiter, as in "TestDCase" to "test-d-case" and "TestCCTest" to "test-c-c-test" |
| Styles.Dasherize | src/Stringy.php:431-434 | The only separator left is '-', never doubled |
| Styles.Underscored | src/Stringy.php:2158-2161 | The only separator left is '_', never doubled |
| Styles.Camelize | src/Stringy.php:2182-2209 | Keeps the encoding |
| Styles.UpperCamelize | src/Stringy.php:2170-2173 | The camelized text with only its first codepoint upper-cased: same length, same encoding, same codepoints from the second on |
| Styles.CamelizeClean | src/Stringy.php:2182-2209 | Neither camelize nor upperCamelize leaves a `-`, `_` or whitespace codepoint, when upper-casing keeps those classes |
| Styles.CamelRunsClean | src/Stringy.php:2188-2198 | The `[-_\s]+(.)?` replacement leaves no separator |
| Styles.DigitRunsClean | src/Stringy.php:2200-2206 | The `[\d]+(.)?` replacement introduces no separator |
| Styles.CamelRunsPlain | src/Stringy.php:2188-2198 | Text without separators is unchanged by the separator replacement |
| Styles.DigitRunsPlain | src/Stringy.php:2200-2206 | Text without digits is unchanged by the digit replacement |
| Styles.CamelRunsPrefix | src/Stringy.php:2188-2198 | A separator-free prefix passes through unchanged |
| Styles.CamelRunsJoin | src/Stringy.php:2188-2198 | Two words joined by one separator run become the first word followed by the second with its first codepoint upper-cased |
| Styles.CamelTextJoin | src/Stringy.php:2184-2208 | The same for the whole camelize rewrite, for digit-free text whose first word is not empty |
| Styles.DigitRunsPrefix | src/Stringy.php:2200-2206 | A digit-free prefix passes through the digit replacement unchanged |
| Styles.DigitRunsAtRun | src/Stringy.php:2200-2206 | A leading digit run goes through the upper-case map together with the codepoint after it, when that is neither a digit nor a newline |
| Styles.DigitRunsFromRun | src/Stringy.php:2200-2206 | The same for a digit run inside the text, from the run on |
| Styles.DigitRunsWindow | src/Stringy.php:2200-2206 | From any position: the digit-free text up to a run is kept, the run and the codepoint after it are upper-cased |
| Styles.DigitRunsAfterWord | src/Stringy.php:2176-2206 | The letter after a digit run is capitalised: digit-free text, then the run and that letter upper-cased, then the rest folded |
| Styles.DigitRunsAfterDrop | src/Stringy.php:2200-2206 | The digit replacement applied to the output of the separator replacement upper-cases the first digit run and the codepoint after it |
| Styles.CamelTextAfterJoin | src/Stringy.php:2184-2208 | On two words, camelize's rewrite is the digit replacement of the joined words |
| Styles.CamelTextDigits | tests/StringyOrigTest.php:441 | Without separators, a digit run is upper-cased together with the letter after it, as in "1camel2case" to "1Camel2Case" |
| Styles.CamelTextJoinDigits | tests/StringyOrigTest.php:433 | A separator run and then a digit run: the word after the separators and the letter after the digits both start upper-cased, as in "string_with1number" to "stringWith1Number" |
| Names.TitleWord | src/Stringy.php:1917-1937 | A word on the ignore list comes back as it is; any other is lower-cased and then has its first codepoint upper-cased |
| Names.TitleWords | src/Stringy.php:1917-1937 | The rewrite of every `\S+` word keeps the length |
| Names.Titleize | src/Stringy.php:1917-1937 | The result has the length of the trimmed text and keeps the encoding |
| Names.TitleWordsPointwise | src/Stringy.php:1917-1937 | With no whole word ignored, every codepoint is upper-cased at a word start and lower-cased inside a word, and whitespace is kept |
| Names.TitleizePointwise | src/Stringy.php:1917-1937 | titleize is that pointwise rewrite of the trimmed text |
| Names.TitleEach | src/Stringy.php:1917-1937 | The callback applied to each word of a list, in order |
| Names.TitleWordsJoin | src/Stringy.php:1917-1937 | Words separated by single spaces are rewritten one by one by the callback, ignored words included, and the spaces are kept |
| Names.TitleWordsOne | src/Stringy.php:1917-1937 | A text that is one word goes through the callback whole |
| Names.TitleWordsThenSpace | src/Stringy.php:1917-1937 | A word followed by a space: the word goes through the callback, the space is kept, and the rest is rewritten on its own |
| Names.TitleizeJoin | src/Stringy.php:1917-1937 | titleize of words separated by single spaces: each ignored word is kept and every other word is capitalised, as in `titleize(['the'])` of "testing the method" |
| Casing.TrimUntouched | src/Stringy.php:284-293 | Text that neither starts nor ends with whitespace is unchanged by trim |
| Names.TitleWordsIgnored | src/Stringy.php:1917-1937 | A word on the ignore list is left as it is |
| Names.StrposAtZero | src/Stringy.php:2505-2517 | `strpos(name, b) === 0` means b is a non-empty prefix of name |
| Names.KeepNameMeans | src/Stringy.php:2498-2521 | A part is kept exactly when it is a particle, or starts with a particle and the delimiter is '-', or starts with a name prefix |
| Names.FixName | src/Stringy.php:2433-2442 | A kept part is unchanged; any other part has its first codepoint upper-cased |
| Names.ByDelimiter | src/Stringy.php:2452-2527 | The rewrite keeps the length |
| Names.FixNameAvoids | src/Stringy.php:2433-2442 | Fixing a part never introduces the delimiter |
| Names.ByDelimiterParts | src/Stringy.php:2452-2527 | Exploding the result on the delimiter gives the fixed parts of the original |
| Names.FixNameIdempotent | src/Stringy.php:2433-2442 | Fixing a part twice is fixing it once |
| Names.ByDelimiterIdempotent | src/Stringy.php:2452-2527 | Capitalizing by a delimiter twice is doing it once |
| Names.CapitalizePersonalName | src/Stringy.php:2419-2426 | Keeps the encoding and the length of the whitespace-collapsed text |
| Splitting.Split | src/Stringy.php:1830-1863 | A limit of 0 gives no pieces; an empty pattern gives the value itself; a positive limit k gives at most k pieces; every piece keeps the encoding |
| Splitting.SplitJoin | src/Stringy.php:1830-1863 | Without a positive limit, the pieces hold no pattern and joined by it give the text back |
| Splitting.SplitLimit | src/Stringy.php:1844-1854 | A positive limit k keeps the first k of the unlimited pieces |
| Splitting.SplitOfJoin | src/Stringy.php:1830-1863 | Splitting a join gives the parts back when no part holds the pattern's first codepoint |
| Splitting.LineTexts | src/Stringy.php:1013-1023 | At least one line, and no line holds '\r' or '\n' |
| Splitting.Lines | src/Stringy.php:1013-1023 | The same for the values, each keeping the encoding |
| Splitting.LinesOfJoin | src/Stringy.php:1013-1023 | Lines joined by "\n" split back into the same lines, when none holds a break and none strictly inside is empty |
| Splitting.ToSpaces | src/Stringy.php:2032-2038 | Keeps the encoding; a text without tabs is unchanged |
| Splitting.ToSpacesRemovesTabs | src/Stringy.php:2032-2038 | No tab is left |
| Splitting.ToTabs | src/Stringy.php:2049-2055 | Keeps the encoding; a tab length of 0 changes nothing |
| Splitting.ToTabsUndoesToSpaces | src/Stringy.php:2032-2055 | toTabs undoes toSpaces for a positive tab length, on text with no space |
| Splitting.ToSpacesUndoesToTabs | src/Stringy.php:2032-2055 | toSpaces undoes toTabs on text with no tab |

## Left out

- Randomness and ambient state are not modelled: `appendPassword`, `appendRandomString`, `appendUniqueIdentifier` and `shuffle`.
- Methods built on libraries whose code is not available are not modelled: `removeXss`, `isEmail`, `slugify`, `toAscii`, `tidy`, `utf8ify`, `htmlEncode`, `htmlDecode`, `escape`, `isHtml`, `isBase64`, `stripWhitespace`, `swapCase`, `toTitleCase`.
- Methods that rely on PHP's runtime parsers are not modelled: `isJson`, `isSerialized`, `toBoolean`.
- Methods driven by a user-supplied regular expression are not modelled: `regexReplace`, `is`, `matchesPattern`, and the POSIX-class `is*`/`has*` predicates.
- HTML and word-wrap helpers are not modelled: `stripeCssMediaQueries`, `stripeEmptyHtmlTags`, `removeHtmlBreak`, `removeHtml`, `lineWrapAfterWord`, `shortenAfterWord`, `snakeize`.
- `extractText` is not modelled: it depends on a floating-point `round`.
- The general replacement methods are not modelled: `replace`, `replaceAll`, `replaceBeginning`, `replaceEnding`. Only the literal replace-all behind `toSpaces` and `toTabs` is.
- `src/Create.php` is not part of this model: it is a thin factory over the constructor.
- Search.CountSubstr: only the case-sensitive path. The case-insensitive path upper-cases through `mb_strtoupper` with the encoding, and that is not modelled.
- `UTF8::checkForSupport()` environment probing is not modelled.
- Byte-level encodings, grapheme clusters and Unicode case tables are not modelled. Case maps are one codepoint to one codepoint, so multi-codepoint mappings such as 'ß' to "SS" are not covered.
- PHP integers are unbounded here: no width or overflow is modelled for lengths, indices or multipliers.
- Splitting.ToSpaces: the tab length is a `nat`. A negative tab length, which `str_repeat` refuses, is not modelled.
- Splitting.ToTabs: the tab length is a `nat`, for the same reason as Splitting.ToSpaces.
- Value.Repeat: the multiplier is a `nat`. A negative multiplier, which `str_repeat` refuses, is not modelled.
- Casing.Trim: the `$` anchor of the trim regex also matches before a final "\n". The model strips maximal runs only, which is the same whenever "\n" is in the stripped class.
- Casing.TrimRight: the same `$` anchor. When "\n" is not in the stripped class, `trimRight(" ")` of "a \n" gives "a\n" in PHP, while the model strips nothing there, because its run must end the text.
- Value.Slice: for a negative start the contract follows the code as written, which reads a non-negative end as a length from the resolved start; the documented "up to, but not including the index end" is not promised there.
- Common.LongestCommonSubstring: the table is kept as two rolling rows of `seq<nat>` instead of a full 2-D array. The source reads only the previous row, so the values compared and the tie-break are the same.
- Styles.DelimitText: its contract states where separators may appear, not the words themselves. The words are stated by Styles.DelimitWords and Styles.DelimitSpacedWords for text without capitals and by Styles.DelimitCapitals for words that start with a capital. Mixed cases, such as a capital after a separator, are not stated as a closed form. The same holds for Styles.Delimit, Styles.Dasherize and Styles.Underscored.
- Styles.Delimit: the delimiter is inserted literally. PHP hands it to `preg_replace` as the replacement string, where `$n`, `${n}` and `\n` for a digit n are back-references and a backslash escapes `$` and `\`. So `delimit('$0')` of "test case" gives "test case" in PHP, because each separator run is put back as matched, while the model gives "test$0case". The contracts of Styles.DelimitText, Styles.Delimit and the lemmas about them describe PHP only for delimiters without `$` or `\`. Styles.Dasherize and Styles.Underscored pass '-' and '_' and are not affected.
- Styles.Camelize: its contract states the encoding only. What camelize computes is stated by lemmas: Styles.CamelizeClean says no separator remains, Styles.CamelTextJoin covers one separator run between digit-free words, Styles.CamelTextDigits covers digit runs in separator-free text, and Styles.CamelTextJoinDigits covers one separator run followed by one digit run. Text with several separator runs and digit runs in other orders is stated only piece by piece, through Styles.CamelRunsJoin and Styles.DigitRunsWindow, not as one closed form.
- Names.CapitalizePersonalName: its contract states the encoding and the length. The per-part behaviour is stated on Names.ByDelimiter through Names.ByDelimiterParts and Names.KeepNameMeans.
- Search.Between: the found and not-found cases are stated for a non-negative offset only (Search.BetweenFound, Search.BetweenNoStart, Search.BetweenNoEnd). A negative offset follows `mb_strpos`, which Codepoints.Strpos models.

## Findings

| source | as written | input that shows it | evidently intended | confidence | as-written member | corrected member |
|---|---|---|---|---|---|---|
| src/Stringy.php:1803-1818 | For a negative `end`, slice passes `length + end - start` to substr. When that is negative, substr reads it as "leave that many off the end" | `slice(4, -3)` of "foobar" gives "a" | '' whenever the resolved end is at or before start, as for a non-negative end | not executed | Value.SliceAsWritten, Value.SliceNegativeEndOvershoot | Value.Slice |
| src/Stringy.php:488-498 | startsWith passes the encoding as the third argument of `UTF8::strpos`, whose third parameter is the integer offset. An encoding name with a leading number becomes a positive offset, so no match at 0 is found. startsWithAny, ensureLeft and removeLeft call it and inherit this: Search.StartsWithAny, Search.EnsureLeft and Search.RemoveLeft model those calls as written | "foo bar baz" with encoding "8bit" does not start with "foo" | A prefix test independent of the encoding tag | not executed | Search.StartsWithAsWritten, Search.StartsWithEightBit | Search.StartsWith |
