# phpMyFAQ helper functions, modelled in Dafny

This project models the core of `phpmyfaq/inc/functions.php` from phpMyFAQ:

- the decision logic of the public search, `searchEngine`:
  - the search conditions and the first search;
  - the redirect to a record found by its solution id;
  - the fallback LIKE query;
  - the page window and the row loop;
  - the permission gate;
  - the cleaning and quoting of the term and the highlighting of the excerpts;
  - the count line and the links to the previous and next page;
- the helpers around it: `highlight_no_links`, `chopString`, `safeSQL`,
  `EndSlash`, `fixslashes`, `check4AddrMatch` and `IPCheck`, `PageSpan`,
  `alignTablePrefixByPattern` and `alignTablePrefix`, the matching part of
  `checkBannedWord`, and `quoted_printable_encode`.

One module per component, one file each:

| module | file | models |
|---|---|---|
| `Wrappers` | wrappers.dfy | `Option` |
| `Text` | text.dfy | PHP's `explode`, `implode`, `str_replace`, `trim`, `strtolower`, `(int)` and integer printing |
| `Escaping` | escaping.dfy | `safeSQL`, `EndSlash`, `fixslashes` |
| `Chop` | chop.dfy | `chopString` |
| `AddrMatch` | addr_match.dfy | `ip2long`, `long2ip`, `check4AddrMatch`, `IPCheck` |
| `TablePrefix` | table_prefix.dfy | `alignTablePrefixByPattern`, `alignTablePrefix` |
| `BannedWords` | banned_words.dfy | `checkBannedWord` |
| `QuotedPrintable` | quoted_printable.dfy | `quoted_printable_encode`, plus a decoder for RFC 2045 quoted-printable as its partner |
| `AdminPager` | admin_pager.dfy | `PageSpan` |
| `Highlight` | highlight.dfy | the term cleaning and `preg_quote` of the search, `highlight_no_links`, `preg_replace_callback` |
| `Permission` | permission.dfy | the permission gate of the search |
| `SearchQuery` | search_query.dfy | the conditions, the redirect target, the fallback WHERE clause |
| `Search` | search.dfy | `searchEngine` |

How the code takes form in the model:

- Code that builds a string in a loop is a `method` with its loop kept:
  - `safeSQL`, `chopString`, `PageSpan`, `IPCheck` and `checkBannedWord`;
  - the wrapping loop of `quoted_printable_encode`;
  - the highlight loop, the fallback WHERE loop and the row loop of `searchEngine`.

  Each such method is proved equal to a specification function, and the
  properties are proved about that function.
- Single expressions become functions: `EndSlash`, `fixslashes`,
  `check4AddrMatch`, `highlight_no_links` and `alignTablePrefix(ByPattern)`.

What `searchEngine` cannot see becomes a value or a function in its
environment (`Search.Env`):

- the database;
- the permission lists of a record;
- the category path;
- the link builder;
- the PHP library functions it calls.

Instead of sending a `Location` header, the redirect is returned as an
`Outcome`.

Where the code and its documentation differ, the model follows the code.

- Under the "medium" permission level a row needs a group the visitor is
  in. A user list that names the visitor does not make up for a missing
  group, because the user loop runs only once a group has matched
  (`Permission.MediumNeedsGroup`).
- Rows the gate refuses still count towards the page's
  `numberOfRecordsPerPage`: `$displayedCounter` is incremented before the
  gate.
- The redirect is decided on the row count of the first search, before any
  permission check.

## Model

| member | source | states |
|---|---|---|
| Text.Explode | phpmyfaq/inc/functions.php:1218 | `explode` gives at least one piece and no piece holds the separator |
| Text.ImplodeExplode | phpmyfaq/inc/functions.php:1218 | joining the pieces of `explode` with the separator gives the string back |
| Text.ExplodeImplode | phpmyfaq/inc/functions.php:1218 | `explode` undoes `implode` when no part holds the separator |
| Text.StrReplaceSelf | phpmyfaq/inc/functions.php:1526 | `str_replace` of a needle by itself leaves the subject unchanged |
| Text.StrReplaceAbsent | phpmyfaq/inc/functions.php:1526 | `str_replace` leaves a subject without the needle unchanged |
| Text.Lower | phpmyfaq/inc/functions.php:558 | `strtolower` keeps the length and lower-cases each character on its own |
| Text.TrimLeft | phpmyfaq/inc/functions.php:551 | the result is a suffix of the input; every character removed before it is one `trim` removes, and the result does not start with one |
| Text.TrimRight | phpmyfaq/inc/functions.php:551 | the result is a prefix of the input; every character removed after it is one `trim` removes, and the result does not end with one |
| Text.LeadingDigits | phpmyfaq/inc/functions.php:940 | the digits `(int)` reads form the longest all-digit prefix |
| Escaping.SafeSql | phpmyfaq/inc/functions.php:1486-1501 | the result is the character-wise escape; it is longer by the number of `'`, `\`, LF and CR; it is the input when there are none; followed by a quote, MySQL's literal reader gives back exactly the input |
| Escaping.SqlEscapedReadsBack | phpmyfaq/inc/functions.php:1486-1501 | any string, escaped and closed by a quote, reads back as itself, and the literal ends at that quote whatever follows |
| Escaping.SqlEscapedLength | phpmyfaq/inc/functions.php:1490-1499 | each escaped character adds exactly one character |
| Escaping.SqlEscapedPlain | phpmyfaq/inc/functions.php:1497 | a string without special characters is copied unchanged |
| Escaping.EndSlash | phpmyfaq/inc/functions.php:758-764 | the result ends in "/", extends the input by at most one character, and equals the input exactly when the input already ends in "/" |
| Escaping.StripEscapes | phpmyfaq/inc/functions.php:1573 | the replacement never lengthens the text |
| Escaping.FixSlashes | phpmyfaq/inc/functions.php:1567-1577 | `fixslashes` never lengthens the text |
| Escaping.FixSlashesIsStrip | phpmyfaq/inc/functions.php:1571-1574 | the `strpos` guard is only a shortcut: the result is always the replacement's |
| Escaping.StripEscapesPlain | phpmyfaq/inc/functions.php:1573 | text without a backslash is unchanged |
| Escaping.FixSlashesUndoesEscape | phpmyfaq/inc/functions.php:1573 | `fixslashes` undoes escaping every character that is not `\w`, `\s` or a backslash |
| Escaping.FixSlashesOnlyDropsBackslashes | phpmyfaq/inc/functions.php:1573 | `fixslashes` deletes backslashes and nothing else |
| Chop.ChopString | phpmyfaq/inc/functions.php:1215-1227 | the result splits back into exactly the first `min($words, count)` pieces plus an empty one; all pieces plus a space when `$words` reaches the count; empty when `$words` is not positive; a prefix of the input plus a space |
| Chop.ChoppedIsImplode | phpmyfaq/inc/functions.php:1223-1226 | the copied pieces are joined by single spaces, with one trailing space |
| Chop.ChoppedSplitsBack | phpmyfaq/inc/functions.php:1218-1226 | no copied piece is cut or merged |
| Chop.ChoppedIsPrefix | phpmyfaq/inc/functions.php:1218-1226 | any number of copied pieces is a prefix of the text plus a space |
| AddrMatch.Ip2Long | phpmyfaq/inc/functions.php:468-469 | an accepted address is below 2^32 |
| AddrMatch.Long2IpRoundTrip | phpmyfaq/inc/functions.php:478 | `ip2long(long2ip(x)) == x` for every 32-bit value |
| AddrMatch.Ip2LongRoundTrip | phpmyfaq/inc/functions.php:478 | every string `ip2long` accepts is the `long2ip` form of its value, so the netmask test of line 478 accepts exactly the dotted netmasks |
| AddrMatch.Check4AddrMatch | phpmyfaq/inc/functions.php:458-483 | without "/" the two `ip2long` values are compared, a failed parse counting as 0 |
| AddrMatch.AddressMatchIsEquality | phpmyfaq/inc/functions.php:471-473 | two well-formed addresses without "/" match exactly when they are the same text |
| AddrMatch.DottedNetmask | phpmyfaq/inc/functions.php:476-478 | a mask `ip2long` accepts is used as it is |
| AddrMatch.PrefixNetmask | phpmyfaq/inc/functions.php:476-478 | any other mask text is read as a prefix length, its leading integer |
| AddrMatch.CidrMask | phpmyfaq/inc/functions.php:478 | the shifted mask's low 32 bits; a negative shift count gives None |
| AddrMatch.MaskIsHigh | phpmyfaq/inc/functions.php:478 | for a prefix p from 0 to 32 the mask is 2^32 - 2^(32-p): the leading p bits set and the others clear |
| AddrMatch.CidrMaskKeepsLeadingBits | phpmyfaq/inc/functions.php:478-479 | for a prefix p from 0 to 32, two addresses agree under the mask exactly when their leading p bits agree (section 3.1 of RFC 4632) |
| AddrMatch.CidrMatch | phpmyfaq/inc/functions.php:474-480 | "net/p" matches exactly when the leading p bits agree; /32 compares whole addresses, /0 matches all, a prefix over 32 gives None (a negative shift count) |
| AddrMatch.Matches | phpmyfaq/inc/functions.php:501-502 | entry i is tried with `check4AddrMatch` |
| AddrMatch.VerdictAllows | phpmyfaq/inc/functions.php:501-506 | an address is allowed exactly when no entry matches it |
| AddrMatch.VerdictRefuses | phpmyfaq/inc/functions.php:501-504 | an address is refused exactly when some entry matches and every earlier entry does not |
| AddrMatch.IPCheck | phpmyfaq/inc/functions.php:496-507 | the loop returns the verdict of the space-separated entries tried in order |
| TablePrefix.LeadingWord | phpmyfaq/inc/functions.php:1522 | `(\w+)` captures the maximal run of word characters |
| Text.SpaceRun | phpmyfaq/inc/functions.php:1522 | `\s+`, here and in the `preg_split` of line 1005, consumes the maximal run of blanks, and nothing else |
| TablePrefix.TableNameMatches | phpmyfaq/inc/functions.php:1522-1524 | the captured name is a split the regular expression accepts |
| TablePrefix.MatchIsTableName | phpmyfaq/inc/functions.php:1522-1524 | every split the regular expression accepts is the captured one, so the capture is unique |
| TablePrefix.TableNameAt | phpmyfaq/inc/functions.php:1522-1524 | the captured name sits right after the keywords and the blanks |
| TablePrefix.Renamed | phpmyfaq/inc/functions.php:1525 | the new name starts with the new prefix and keeps what follows the old prefix's length |
| TablePrefix.RenamedRoundTrip | phpmyfaq/inc/functions.php:1525 | a name with the old prefix gets it swapped, and swapping back restores it |
| TablePrefix.AlignByPattern | phpmyfaq/inc/functions.php:1518-1530 | a query the pattern does not capture is returned unchanged |
| TablePrefix.AlignSamePrefix | phpmyfaq/inc/functions.php:1518-1530 | aligning from a prefix to the same prefix changes nothing |
| TablePrefix.AlignRenamesTarget | phpmyfaq/inc/functions.php:1522-1526 | the statement keeps its keywords, names the renamed table, and every later occurrence of the old name is renamed too |
| TablePrefix.StrReplaceSkips | phpmyfaq/inc/functions.php:1526 | `str_replace` copies text without the needle and replaces the needle that follows |
| TablePrefix.AlignTablePrefix | phpmyfaq/inc/functions.php:1546-1554 | a query that is neither a DELETE FROM nor an INSERT INTO is returned unchanged |
| TablePrefix.AlignTablePrefixSame | phpmyfaq/inc/functions.php:1546-1554 | aligning to the same prefix leaves every well-prefixed statement unchanged |
| BannedWords.CheckBannedWord | phpmyfaq/inc/functions.php:546-568 | as written: accepted exactly when the trimmed content is empty and the check is off, or no banned word occurs without regard to case |
| BannedWords.CheckBannedWordIntended | phpmyfaq/inc/functions.php:546-568 | accepted exactly when the content is empty, or the check is off, or no banned word occurs |
| BannedWords.DisabledCheckStillSearches | phpmyfaq/inc/functions.php:552-554 | the content "spam" with the list ["spam"] tells the two apart |
| QuotedPrintable.EncodeChar | phpmyfaq/inc/functions.php:887-888 | a literal byte is copied; any other byte becomes "=" and two hex digits |
| QuotedPrintable.ZeroPadSprintfChar | phpmyfaq/inc/functions.php:887-888 | for a byte other than NUL, the two replacements produce the intended "=XY" |
| QuotedPrintable.AsWrittenEncodesAll | phpmyfaq/inc/functions.php:887-888 | on input without NUL, the steps as written equal the byte encoding |
| QuotedPrintable.NulEncodedAsBackslash | phpmyfaq/inc/functions.php:887 | as written, NUL becomes "=5C", which decodes to a backslash; the intended encoding is "=00" |
| QuotedPrintable.EncodeAllWellEncoded | phpmyfaq/inc/functions.php:887-888 | the encoded text has no line breaks, and every "=" is followed by two hex digits |
| QuotedPrintable.DecodeEncodeAll | phpmyfaq/inc/functions.php:887-888 | decoding undoes the byte encoding |
| QuotedPrintable.EncodeAllEnd | phpmyfaq/inc/functions.php:887 | input not ending in a blank gives text not ending in a blank or "=" |
| QuotedPrintable.StepFor | phpmyfaq/inc/functions.php:893-898 | the piece length is 76, cut back to 75, 74 or 73 |
| QuotedPrintable.CutIsBoundary | phpmyfaq/inc/functions.php:893-899 | a cut never splits an "=XY" |
| QuotedPrintable.Wrap | phpmyfaq/inc/functions.php:890-905 | the output is the cut pieces, each followed by a soft break, then the rest of the text; the completed lines are exactly the pieces `Cuts` gives, each of 73 to 76 well-encoded characters |
| QuotedPrintable.WrapStep | phpmyfaq/inc/functions.php:893-902 | one turn advances by the piece length and either completes the piece as a line with a soft break (when 76 characters would not reach the end) or extends the open line |
| QuotedPrintable.CutBack | phpmyfaq/inc/functions.php:893-898 | the three `preg_match` tests give the piece length `StepFor` computes |
| QuotedPrintable.CutsLength | phpmyfaq/inc/functions.php:893-899 | every cut piece has 73 to 76 characters |
| QuotedPrintable.CutsStep | phpmyfaq/inc/functions.php:894-902 | a piece that stops short of the end is the next of the cut pieces |
| QuotedPrintable.AddLineStep | phpmyfaq/inc/functions.php:894-902 | a piece that stops short of the end becomes a completed line followed by "=\r\n" |
| QuotedPrintable.ExtendLineStep | phpmyfaq/inc/functions.php:894-901 | a piece that reaches the end extends the open line |
| QuotedPrintable.WrapDone | phpmyfaq/inc/functions.php:903 | when the loop stops, the lines and the open line make up the whole text, and the lines are all the cut pieces |
| QuotedPrintable.FinishShape | phpmyfaq/inc/functions.php:906-907 | the final steps only add a space after a final '.' and the final CRLF |
| QuotedPrintable.EncodedLines | phpmyfaq/inc/functions.php:890-907 | split at LF, the output is the completed lines with their soft breaks, then the last line |
| QuotedPrintable.LastLineStrips | phpmyfaq/inc/functions.php:906 | a decoder strips only the space added after a final '.' |
| QuotedPrintable.OutputLinesFit | phpmyfaq/inc/functions.php:890-903 | every output line is at most 77 characters without its CR |
| QuotedPrintable.DecodeEncoded | phpmyfaq/inc/functions.php:884-908 | the encoded lines decode to the input followed by CRLF |
| QuotedPrintable.Finished | phpmyfaq/inc/functions.php:884-908 | the finished output ends in CRLF, has lines of at most 77 characters, and decodes to the input plus CRLF |
| QuotedPrintable.QuotedPrintableEncode | phpmyfaq/inc/functions.php:884-908 | the output ends in CRLF, has lines of at most 77 characters, and an RFC 2045 decoder gives back the input followed by CRLF when the input does not end in a blank |
| AdminPager.Link | phpmyfaq/inc/functions.php:1372 | a link ends in "</a>" |
| AdminPager.Entries | phpmyfaq/inc/functions.php:1367-1376 | one entry per page from `$start` to `$end`, in order |
| AdminPager.AppendPages | phpmyfaq/inc/functions.php:1367-1376 | the loop appends the entries of the pages from `$start` to `$end`, in order and separated by ", " |
| AdminPager.AppendEntry | phpmyfaq/inc/functions.php:1368-1375 | one turn of the loop extends the ", "-joined entries by one |
| AdminPager.AddPage | phpmyfaq/inc/functions.php:1368-1375 | one turn of the loop adds the separator (except before the first page) and page `$h`'s entry: plain when it is `$akt`, a link otherwise |
| AdminPager.Assemble | phpmyfaq/inc/functions.php:1362-1380 | the label, the previous link, the joined entries and the next link make up the switcher |
| AdminPager.PageSpan | phpmyfaq/inc/functions.php:1359-1382 | the loop produces the switcher: a previous link when `$akt > $start`, the entries joined by ", ", a next link when `$akt < $end` |
| AdminPager.EntryPlainIffCurrent | phpmyfaq/inc/functions.php:1371-1375 | an entry is the plain number exactly when it is the current page |
| AdminPager.OnlyCurrentPageUnlinked | phpmyfaq/inc/functions.php:1367-1376 | exactly the current page is shown without a link, and every other page links to its own number |
| Highlight.Sanitize | phpmyfaq/inc/functions.php:1093 | the cleaned term is no longer and holds none of the removed characters |
| Highlight.SanitizeAppend | phpmyfaq/inc/functions.php:1093 | the deletion works character by character: cleaning a joined text cleans each part, so the kept characters stay in their order |
| Highlight.SanitizeKeepsClean | phpmyfaq/inc/functions.php:1093 | a term without those characters is unchanged |
| Highlight.QuoteChar | phpmyfaq/inc/functions.php:1094 | every character quotes to at least one character |
| Highlight.PregQuoteLength | phpmyfaq/inc/functions.php:1094 | quoting adds exactly the quoting cost |
| Highlight.PregQuotePlain | phpmyfaq/inc/functions.php:1094 | a term without special characters is unchanged |
| Highlight.UnquotePregQuote | phpmyfaq/inc/functions.php:1094 | the pattern parser reads back exactly the quoted term |
| Highlight.QuotingAddsBackslash | phpmyfaq/inc/functions.php:1094 | quoting something leaves a backslash that is itself quotable |
| Highlight.RequoteFixedIff | phpmyfaq/inc/functions.php:1093-1094 | a row leaves the term unchanged exactly when the term needs no cleaning and no quoting |
| Highlight.RequoteCompounds | phpmyfaq/inc/functions.php:1093-1094 | once the cleaned term has something to quote, it keeps something to quote and grows with every further row |
| Highlight.Groups | phpmyfaq/inc/functions.php:1100-1104 | the callback receives at most five entries (the whole match and four groups), and entry 0 is the match |
| Highlight.HighlightWrapsItem | phpmyfaq/inc/functions.php:1199-1205 | with a group 5 to read, the callback wraps prefix, item and postfix in a highlight span |
| Highlight.NeverHighlights | phpmyfaq/inc/functions.php:1195-1209 | with the four-group pattern, the callback returns every match unchanged |
| Highlight.IntendedWrapsOnlyBareItems | phpmyfaq/inc/functions.php:1195-1209 | the intended callback highlights a bare item and leaves attribute names and values alone |
| Highlight.BareItemNotHighlighted | phpmyfaq/inc/functions.php:1195-1209 | a bare "cat" separates the as-written callback from the intended one |
| Highlight.ReplaceAsWrittenIsIdentity | phpmyfaq/inc/functions.php:1100-1113 | `preg_replace_callback` with the callback as written gives back its subject |
| Highlight.ReplaceIntendedKeepsMarkup | phpmyfaq/inc/functions.php:1100-1113 | with the intended callback, matches inside markup are left alone |
| Highlight.HighlightAllUnchanged | phpmyfaq/inc/functions.php:1097-1116 | under a faithful engine, highlighting changes neither title nor content |
| Highlight.HighlightExcerpt | phpmyfaq/inc/functions.php:1097-1116 | when the first item is longer than one character, every item longer than two is applied in order to title and content; otherwise both are unchanged |
| Permission.Gate | phpmyfaq/inc/functions.php:1064-1089 | the flag is set exactly when the row is permitted. Under "basic": the user list holds -1 or the visitor. Under "medium": a shared group and a user list that is empty or lets the visitor in. Any other level: never |
| Permission.MediumNeedsGroup | phpmyfaq/inc/functions.php:1066-1074 | under "medium" no row without a shared group is shown, whatever its user list says |
| SearchQuery.Conditions | phpmyfaq/inc/functions.php:943-951 | the active flag is always last; the category condition is present exactly when `$cat != '%'`; the language condition exactly when not all languages and the term is not numeric |
| SearchQuery.ColumnsDiffer | phpmyfaq/inc/functions.php:943-951 | the three conditions use different columns, so `array_merge` never overwrites one |
| SearchQuery.RedirectTarget | phpmyfaq/inc/functions.php:996-1000 | the location is the rewritten `/solution_id_N.html` or `/index.php?solution_id=N` form |
| SearchQuery.SplitWs | phpmyfaq/inc/functions.php:1005 | at least one key, and no key holds white space |
| SearchQuery.SplitWsFlatten | phpmyfaq/inc/functions.php:1005 | the keys together are the term without its white space |
| SearchQuery.SplitWsSingle | phpmyfaq/inc/functions.php:1005 | a term without white space is one key |
| SearchQuery.Clauses | phpmyfaq/inc/functions.php:1008-1019 | one clause per key |
| SearchQuery.AddClause | phpmyfaq/inc/functions.php:1009-1018 | one turn adds " OR " unless the text is empty, then the key's LIKE tests, category test and language test |
| SearchQuery.WhereStep | phpmyfaq/inc/functions.php:1008-1019 | after each turn, the text is the clauses so far joined by " OR ", empty only before the first |
| SearchQuery.BuildWhere | phpmyfaq/inc/functions.php:1007-1021 | the loop builds the WHERE clause: the keys' clauses joined by " OR ", restricted to active records |
| SearchQuery.ClauseHasPattern | phpmyfaq/inc/functions.php:1012 | a key's LIKE pattern appears in its clause |
| SearchQuery.WhereHasEveryKey | phpmyfaq/inc/functions.php:1012 | every key appears unescaped between the quotes of a LIKE pattern in the WHERE clause |
| Search.Pages | phpmyfaq/inc/functions.php:1031 | the page count is the ceiling of rows over rows per page: enough pages, and no spare one |
| Search.Skipped | phpmyfaq/inc/functions.php:1032-1033 | the loop passes over at most all rows |
| Search.WindowOfPage | phpmyfaq/inc/functions.php:1031-1036 | a page examines at most `perPage` rows, and page `seite` starts at `(seite - 1) * perPage` |
| Search.EveryRowOnAPage | phpmyfaq/inc/functions.php:1031-1061 | every row is examined on an existing page, at its place on that page |
| Search.Shown | phpmyfaq/inc/functions.php:1064-1089 | the gate shows no more rows than it examines |
| Search.ShownSnoc | phpmyfaq/inc/functions.php:1089 | an examined row is appended exactly when it is permitted |
| Search.ShownIffPermitted | phpmyfaq/inc/functions.php:1057-1089 | a row is shown exactly when it is in the window and permitted |
| Search.DeniedRowsShowNothing | phpmyfaq/inc/functions.php:1057-1089 | denied rows use up the page: a window of denied rows shows nothing |
| Search.ListingSnoc | phpmyfaq/inc/functions.php:1136-1139 | each shown row appends its item, built with the term as that row leaves it |
| Search.PlainTermStays | phpmyfaq/inc/functions.php:1093-1094 | a term with nothing to clean or quote is the same for every row |
| Search.TermGrowsPerRow | phpmyfaq/inc/functions.php:1093-1094 | `$searchterm` is requoted at every permitted row: a term with something to quote grows with each row |
| Search.RowShowsPlainExcerpt | phpmyfaq/inc/functions.php:1090-1139 | under a faithful engine, each item shows the cut title and excerpt unhighlighted |
| Search.ListRow | phpmyfaq/inc/functions.php:1090-1139 | a permitted row requotes the term once and appends the item built with the requoted term |
| Search.LoopStart | phpmyfaq/inc/functions.php:1055-1056 | before the first row, no row is counted, shown or listed and the term is the visitor's |
| Search.LoopSkip | phpmyfaq/inc/functions.php:1058-1061 | a row before the window only advances `$counter` |
| Search.LoopShow | phpmyfaq/inc/functions.php:1062-1139 | a permitted row in the window advances both counters, requotes the term once and appends its item built with the requoted term |
| Search.LoopHide | phpmyfaq/inc/functions.php:1062-1090 | a denied row in the window advances both counters and leaves the listing and the term as they were |
| Search.ExamineRow | phpmyfaq/inc/functions.php:1062-1140 | examining a row in the window keeps the loop state: the items and the term of the permitted rows examined so far |
| Search.ScanRow | phpmyfaq/inc/functions.php:1057-1140 | one turn of the loop keeps the loop state and never lets `$displayedCounter` pass the page size |
| Search.LoopEnd | phpmyfaq/inc/functions.php:1057 | when the loop condition fails, the listing holds the items of the permitted rows of the page window |
| Search.SkipIff | phpmyfaq/inc/functions.php:1058-1061 | a row is passed over exactly when its counter is among the skipped ones |
| Search.LoopEndIsWindow | phpmyfaq/inc/functions.php:1057-1062 | where the loop stops, it has examined exactly the page window, denied rows included |
| Search.ShowRows | phpmyfaq/inc/functions.php:1055-1141 | the row loop appends, in order, the items of the permitted rows of the window; the j-th shown row sees the term requoted j + 1 times |
| Search.PrevLink | phpmyfaq/inc/functions.php:1151-1167 | the previous link carries the encoded term, page `seite - 1` and the languages flag, then the category as `%d` prints it, and ends with the label |
| Search.NextQuery | phpmyfaq/inc/functions.php:1171 | the next link carries the encoded term, page `seite + 1` and the languages flag, and ends with the category pasted in as it is |
| Search.PrevPart | phpmyfaq/inc/functions.php:1149-1168 | the previous link is present exactly when `seite - 1 != 0` |
| Search.NextPart | phpmyfaq/inc/functions.php:1170-1177 | the next link is present exactly when `seite + 1 <= pages` |
| Search.NavAtEnds | phpmyfaq/inc/functions.php:1147-1177 | with more rows than a page holds, page 1 links only forward and the last page only back |
| Search.PageNav | phpmyfaq/inc/functions.php:1147-1179 | the navigation follows the body exactly when not Instant Response and the rows exceed a page, and then there are at least two pages; otherwise the page is the body alone; no rows give only the no-articles message |
| Search.PageBodyCloses | phpmyfaq/inc/functions.php:1142 | with rows found, the body closes the list of items |
| Search.ShowPage | phpmyfaq/inc/functions.php:1027-1179 | the page is the count, the listed items and the navigation, or the no-articles message |
| Search.SearchEngine | phpmyfaq/inc/functions.php:928-1182 | the search is the redirect when the first search qualifies, otherwise the page over the first rows, or over the fallback query's rows when there were none |
| Search.RedirectIff | phpmyfaq/inc/functions.php:993 | the search redirects exactly when the term is numeric, at least the first solution id, and the first search found a row |
| Search.RedirectBeforePermissions | phpmyfaq/inc/functions.php:993-1002 | the redirect goes to the solution-id location, and the visitor and the permission level make no difference to it |
| Search.NothingFound | phpmyfaq/inc/functions.php:1004-1029 | with no rows from either query, the page is the no-articles message alone |

## Left out

- The PHP library functions and framework calls that `searchEngine` makes are
  functions in `Search.Env`. These are `htmlspecialchars`, `stripslashes`,
  `strip_tags`, `urlencode`, the category path, `PMF_Link`'s anchor and uris,
  and `getPermission`.
- The database is two functions in `Search.Env`: the first search and the
  fallback query. `num_rows` is the length of their result.
- The regular-expression engine of the highlighting is a function in
  `Search.Env` that cuts a text into gaps and matches. The PCRE matcher
  itself is not modelled.
- `session_write_close`, `header` and `exit` are not modelled: the redirect
  is returned as an `Outcome`.
- `is_numeric` and the numeric value of the term are inputs in `Search.Request`.
- `PMF_SOLUTION_ID_START_VALUE` is a configuration field. `inc/constants.php`
  is not part of this model.
- `$last` (lines 1032-1036) is computed and clamped but never read, so it is
  not modelled.
- The listing is returned and appended to the page, rather than appended to
  `$output` row by row.
- Search.SearchEngine: requires at least one record per page. With 0,
  `ceil($num / 0)` divides by zero, which is not modelled.
- Search.Seite: `(int)` of the `seite` parameter reads an optional sign and
  leading digits. Exponent and hexadecimal forms are not modelled.
- `getBannedWords` reads a file. Its trimmed list is an input of
  `BannedWords.CheckBannedWord`, and the configuration flag is one too.
- `IPCheck` reads `main.bannedIPs` from the configuration. Here it is a
  parameter.
- The program is written for PHP 5: line 887 uses the `/e` modifier, which
  PHP 7 removed. Where PHP versions differ, the model follows PHP 5
  (`strpos` with an empty needle, `preg_quote` and "#"), except where PHP 5
  leaves the result undefined (a negative shift count), as said below.
- AddrMatch.CidrMask: PHP integers are 64 bits. The mask is the low 32 bits
  of `0xffffffff << (32 - p)`, which is what the `&` with a 32-bit address
  keeps. A negative shift count (a prefix above 32) has no defined result
  in PHP 5 and raises an ArithmeticError in PHP 7; the model gives None,
  which the match and `IPCheck` pass on as an error.
- AddrMatch.PrefixNetmask: the prefix text is read by its leading integer
  (white space, sign, digits, else 0), as `(int)` reads it. PHP computes
  `32 - $text` in number context, so a decimal or exponent text differs:
  "24.5" gives PHP a shift of 7.5, truncated to 7, where the model shifts
  by 8, and "2e1" gives PHP a shift of 12 where the model shifts by 30.
  Such texts are not modelled as PHP reads them. PHP 8's TypeError for a
  non-numeric prefix is not modelled either.
- `ip2long` accepts only the strict dotted quad: four decimal octets with no
  leading zeros.
- `strpos` with an empty needle follows PHP 5, where it is false: an empty
  banned word never matches. `preg_quote` follows PHP 5, where "#" is not
  quoted.
- PCRE's `\w` and `\s` are the C-locale classes. `strtolower` changes only
  ASCII letters. Strings are byte strings with no multi-byte encoding.
- The pattern argument of `alignTablePrefixByPattern` is matched as literal
  keywords without regard to case. The only callers pass "DELETE FROM" and
  "INSERT INTO".
- QuotedPrintable.QuotedPrintableEncode: promises lines of at most 77
  characters, because the code cuts 76 characters of text and then adds the
  soft break's "=". This is one more than RFC 2045 allows.
- QuotedPrintable.QuotedPrintableEncode: the round trip is stated only for
  input that does not end in a space or tab. The encoder leaves a final
  blank raw, and an RFC 2045 decoder strips it.
- QuotedPrintable.QuotedPrintableEncode: encodes NUL as "=00", the
  corrected behaviour (see Findings).
- The search page keeps `highlight_no_links` as written, because that is
  what the page shows. The intended callback is modelled and proved on its
  own (see Findings).

## Findings

| source | as written | input that shows it | evidently intended | confidence | as-written member | corrected member |
|---|---|---|---|---|---|---|
| phpmyfaq/inc/functions.php:552 | the early acceptance needs the trimmed content to be empty `&&` the check to be disabled | banned list ["spam"], check disabled, content "spam": refused | a disabled check accepts at once (`\|\|`) | not executed | BannedWords.CheckBannedWord, BannedWords.DisabledCheckStillSearches | BannedWords.CheckBannedWordIntended |
| phpmyfaq/inc/functions.php:887 | the `/e` replacement passes the matched byte through `addslashes` before `ord` sees it | the byte NUL: encoded "=5C", which decodes to a backslash | "=00" | not executed | QuotedPrintable.NulEncodedAsBackslash, QuotedPrintable.AsWrittenEncodesAll | QuotedPrintable.QuotedPrintableEncode |
| phpmyfaq/inc/functions.php:1195-1209 | the callback reads group 5, but the pattern at lines 1100-1111 has four groups, so group 5 is never set | the term "cat" and a title holding a bare "cat": returned unchanged | the bare item is wrapped in the highlight span | not executed | Highlight.NeverHighlights, Highlight.BareItemNotHighlighted | Highlight.IntendedWrapsOnlyBareItems |
