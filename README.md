# Lead-to-hire attribution, modelled in Dafny

This project models the attribution pipeline inside `app/page.tsx` of the
growth-leads file parser. The pipeline has five stages:

- It cleans the rows of the growth (hires) workbooks.
- It builds an index of lead rows keyed by a canonical agent name. Each entry
  holds the lead's source tag (taken from the free text with
  `/source:\s*([^\n]+)/i`) and its lead year.
- It annotates every hire as a conversion or not, with source, lead year and gap.
- It groups the hires by year into a yearly row, a source breakdown and a
  brokerage breakdown, each with conversions, leads and a rate.
- It writes the two CSV exports.

Modules, in dependency order:

| module | file | what it holds |
|---|---|---|
| `Wrappers` | `wrappers.dfy` | `Option` |
| `Text` | `text.dfy` | JavaScript string primitives: `\s`, `trim`, ASCII case mapping, `replace(/\s+/g, ' ')`, `split`/`join`, `String(n)`, `parseInt`, `padStart`, and the canonical name |
| `SourceTag` | `source_tag.dfy` | the `source:` pattern as a hand-written scan, proved against leftmost, greedy match semantics |
| `Hires` | `hires.dfy` | the hire-row cleaning lambda and the growth upload loop |
| `Leads` | `leads.dfy` | the first-write-wins lead index and the loop that builds it |
| `Matcher` | `matcher.dfy` | per-hire annotation and the conversions filter |
| `Buckets` | `buckets.dfy` | insertion-ordered counter maps (a JavaScript `Map`), rates, and the map, filter and sort of the rows |
| `Reports` | `report.dfy` | `generateReport`: its loops as methods, each proved equal to a function, plus the counting lemmas |
| `Csv` | `csv.dfy` | the conversions export, the brokerage export, and a reader that reads a line back |

The code is imperative where the page's code is:

- The growth upload, the lead-index `forEach`, the grouping by year, the two
  per-year `forEach` passes, the per-year block loop and the brokerage export
  loop are methods with loops.
- Each such method is proved equal to a function.
- The properties are proved about those functions.

The rest is pure functions and lemmas.

The model keeps these behaviours of the code, which a reader might not expect:

- The code has no wildcard brokerage, and `isConversion` checks no brokerage.
- The conversions CSV has six columns: Agent Name, Brokerage, Hire Date (YYYY-MM), Lead Source, Lead Year and Hire vs. Lead Gap (yrs). There is no brokerage-match column.
- The CSV does not double embedded quotes. `Csv.QuoteRoundTrip` shows what this costs: a value containing a quote does not read back.

## Model

| member | source | states |
|---|---|---|
| `Text.Lower` | app/page.tsx:80 | `toLowerCase` keeps the length and lower-cases every character (no upper-case letter is left, white space stays white space) |
| `Text.Upper` | app/page.tsx:73 | `toUpperCase` keeps the length and upper-cases every character |
| `Text.TrimStart` | app/page.tsx:70 | the result is no longer than the input and does not start with white space; every character cut off is white space |
| `Text.TrimEnd` | app/page.tsx:70 | the result does not end with white space; every character cut off is white space |
| `Text.TrimShape` | app/page.tsx:70 | `trim` returns a contiguous infix of the text; only white space lies outside it, and the infix neither starts nor ends with white space |
| `Text.CollapseSpaces` | app/page.tsx:80 | `replace(/\s+/g, ' ')` never lengthens the text, is empty only for empty text, and starts with white space exactly when the input does |
| `Text.CollapseIsSingleSpaced` | app/page.tsx:80 | after collapsing, every white-space character is a plain space and no two are adjacent; collapsing introduces no upper-case letter |
| `Text.CollapseOfSingleSpaced` | app/page.tsx:80 | text that is already single-spaced is left unchanged by the collapse |
| `Text.Canonical` | app/page.tsx:80 | the key `toLowerCase().replace(/\s+/g, ' ').trim()` is lower-case, single-spaced (every white-space character a plain space, never two in a row), and has no white space at either end |
| `Text.CanonicalOfTrim` | app/page.tsx:80 | trimming a name before canonicalising it does not change its key, so the index key of a lead row agrees with the lead filter's key of the untrimmed name (app/page.tsx:154) |
| `Text.CanonicalOfCanonical` | app/page.tsx:87 | a name already in that form is its own canonical name |
| `Text.CanonicalIdempotent` | app/page.tsx:151 | canonicalising twice gives the same key as canonicalising once |
| `Text.CanonicalNotEmpty` | app/page.tsx:79-80 | a non-empty name that does not start with white space has a non-empty canonical name |
| `Text.CanonicalOfTwoWords` | app/page.tsx:154 | two words with any white space around and between them ("Jane Doe", "jane  doe", " JANE DOE ") have the key "first last" in lower case |
| `Text.CanonicalOfWords` | app/page.tsx:151 | any number of words joined by single spaces have that text, lower-cased, as their key |
| `Text.SplitJoin` | app/page.tsx:30 | joining the parts of `split(',')` with ',' gives the text back; no part contains ','; there is one part more than there are commas |
| `Text.JoinSplit` | app/page.tsx:224-225 | splitting a join of parts that do not contain the separator gives the parts back |
| `Text.ParseIntOfDecimal` | app/page.tsx:89-90 | `parseInt(String(n))` is `n` for every integer, so the stored lead year reads back as the year |
| `Text.DecimalTextOfInt` | app/page.tsx:112 | `String(n)` of an integer is an optional minus sign followed by digits |
| `SourceTag.TryAtSound` | app/page.tsx:72 | the scan at one position finds a match exactly when the pattern matches there; the capture it returns is the greedy one (the longest `\s*`, then the longest `[^\n]+`) |
| `SourceTag.Search` | app/page.tsx:72 | the search returns the leftmost position where the pattern matches; `None` only when it matches nowhere |
| `SourceTag.FirstMatchUnique` | app/page.tsx:72 | the leftmost greedy match is unique |
| `SourceTag.ExtractSource` | app/page.tsx:72-73 | the tag is "N/A" when the pattern matches nowhere; otherwise it is the upper-cased, trimmed capture of the leftmost greedy match |
| `SourceTag.ExtractedSourceIsNormalised` | app/page.tsx:73 | every tag is trimmed and has no lower-case letter and no line feed (`\n`); a carriage return or U+2028 inside the value is kept. It can be empty, for example for "source: " at the end of the text |
| `SourceTag.SourceAfterHeader` | app/page.tsx:72-73 | "source:", white space, a line and a line end give the upper-cased, trimmed line |
| `SourceTag.NormalisedTagIsStable` | app/page.tsx:139 | re-normalising a stored tag with `toUpperCase().trim()` leaves it unchanged |
| `Hires.FormatNameReorders` | app/page.tsx:30-31 | "Last, First" (exactly one comma) becomes trimmed "First" + " " + trimmed "Last" |
| `Hires.FormatNameKeeps` | app/page.tsx:30-31 | a name with no comma, or with two or more commas, is kept unchanged |
| `Hires.PaddedMonth` | app/page.tsx:33 | `String(m).padStart(2, '0')` for a month from 0 to 99 is two digits whose value is `m` |
| `Hires.YearMonthRoundTrip` | app/page.tsx:33 | the `y-mm` text parses back to the decoded year and month and ends in "-" and two digits |
| `Hires.CleanHireRow` | app/page.tsx:24-41 | a row is kept exactly when Agent, Company Name and the date are present and Hired is the number 1; a kept hire has the row's company and the decoded year |
| `Hires.CleanedHireFields` | app/page.tsx:29-38 | a kept hire's month text reads back as the decoded date, and its display name is not empty |
| `Hires.CleanRows` | app/page.tsx:23-41 | `map(clean).filter(Boolean)` keeps at most the rows it was given, and every kept hire has an agent and a company |
| `Hires.CleanRowsAppend` | app/page.tsx:23-42 | cleaning two batches one after the other is the same as cleaning them together |
| `Hires.CollectHires` | app/page.tsx:16-43 | the upload loop returns the cleaning of all rows of all files, in file order |
| `Leads.KeyOf` | app/page.tsx:70-83 | a row is keyed exactly when it has a date and a non-blank trimmed name, and then under the canonical form of its name (a non-empty canonical text), the same key whether or not the name was trimmed first |
| `Leads.BuildLeadIndex` | app/page.tsx:68-85 | the `forEach` loop builds exactly `LeadIndexOf(rows)`: row by row, undated rows skipped, each name filed once |
| `Leads.IndexKeys` | app/page.tsx:69-85 | a name is in the index exactly when some dated row with a non-blank name canonicalises to it |
| `Leads.FirstWriteWins` | app/page.tsx:81-83 | the entry under a name is the source tag and the year of the FIRST dated row filed under it |
| `Leads.IndexOnlyGrows` | app/page.tsx:81-83 | more rows never remove or overwrite an entry |
| `Leads.EmptyNameNeverFiled` | app/page.tsx:79 | the empty name is never a key |
| `Matcher.MatchHire` | app/page.tsx:86-97 | the annotation keeps the hire; a conversion implies that the name is in the index; the source is never empty; a gap implies a lead year |
| `Matcher.MatchAll` | app/page.tsx:86-98 | the output has the hires' length and order, each entry carrying its own hire |
| `Matcher.Conversions` | app/page.tsx:100 | the filter keeps only conversions that are among the matched records |
| `Matcher.ConversionsComplete` | app/page.tsx:100 | every conversion is kept |
| `Matcher.ConversionsAppend` | app/page.tsx:100 | filtering distributes over concatenation, so the filter keeps the original order |
| `Matcher.ProcessLeadsAndMatch` | app/page.tsx:67-104 | the function returns the annotated hires against the index of all lead rows, and the conversions among them |
| `Matcher.MatchFirstLead` | app/page.tsx:81-96 | a hire whose name first appears on dated row `i` is matched against that row. It is a conversion exactly when hired in or after that row's year. Its gap is hire year minus lead year (none for year 0), and its source is that row's tag |
| `Matcher.MatchEntry` | app/page.tsx:88-96 | once a name is filed with a tag and a year, the hire's annotation follows from them alone |
| `Matcher.MatchNoLead` | app/page.tsx:88-96 | a hire with no dated lead under its name is not a conversion, has source "N/A", and has no lead year and no gap |
| `Matcher.ConversionNotBeforeLead` | app/page.tsx:93 | every conversion has a recorded lead year that parses, and the hire year is not before it |
| `Buckets.Find` | app/page.tsx:140 | `map.has` finds an entry with that name exactly when there is one |
| `Buckets.Bump` | app/page.tsx:140-141 | `if (!map.has(name)) map.set(...)` then `+= 1`: the bucket exists afterwards, and the map grows by one entry exactly when it was absent |
| `Buckets.Credit` | app/page.tsx:164-166 | `if (map.has(name)) ... leads += 1`: the map keeps its length, and every entry keeps its name and its conversions |
| `Buckets.BumpCounts` | app/page.tsx:140-146 | counting one hire adds exactly one conversion and no lead, keeps names distinct and every bucket active. An absent name gets a new bucket `{name, 1, 0}` at the end; otherwise the bucket of that name gains one conversion and every other entry is unchanged |
| `Buckets.CreditCounts` | app/page.tsx:164-166 | crediting a lead adds one lead only if the bucket already exists; it creates no bucket, changes no conversion and keeps names distinct. The bucket of that name gains one lead and every other entry is unchanged; with no such bucket the map is unchanged |
| `Buckets.PercentText` | app/page.tsx:174 | the shape of a formatted rate: at least one character, a dot, exactly two digits and `%` |
| `Buckets.PercentTextValue` | app/page.tsx:174 | the formatted rate reads back as its value: the text before the dot parses as the whole percent and the two digits after it are the remaining hundredths |
| `Buckets.RateText` | app/page.tsx:174 | every rate text, with or without leads, has that two-decimal percent form |
| `Buckets.RateTextValue` | app/page.tsx:174 | with leads, the rate text spells out the rounded rate `RateHundredths`: whole percent before the dot, the remaining hundredths as the two digits after it |
| `Buckets.RateIsNearest` | app/page.tsx:174-197 | with leads, the rate in hundredths of a percent is within half a hundredth of conversions/leads×100 |
| `Buckets.RateOfNoLeads` | app/page.tsx:174 | with no leads the rate text is exactly "0.00%", the same text as a zero rate, and nothing is divided |
| `Buckets.RowsOf` | app/page.tsx:179-185 | one row per map entry, in map order; row `i` carries entry `i`'s name and counters and the rate of those counters |
| `Buckets.RowsOfCounts` | app/page.tsx:179-185 | the rows carry the map's conversion total and lead total |
| `Buckets.KeepActiveKeepsAll` | app/page.tsx:186 | when every row has a conversion, the filter keeps every row |
| `Buckets.KeepActiveMembers` | app/page.tsx:186 | the filter only drops rows; it adds none |
| `Buckets.InsertRowPermutes` | app/page.tsx:187 | inserting a row adds exactly that row |
| `Buckets.SortRowsPermutes` | app/page.tsx:187 | the sort is a permutation of its input |
| `Buckets.SortRowsSorted` | app/page.tsx:187 | the sort orders rows by conversions descending, with ties by leads descending |
| `Buckets.SortRowsOfSorted` | app/page.tsx:187 | rows already in that order are left as they are |
| `Buckets.SortRowsSums` | app/page.tsx:187 | the sort keeps the totals |
| `Buckets.SortRowsDistinct` | app/page.tsx:187 | sorting rows with distinct names gives rows with distinct names |
| `Buckets.BreakdownOfActive` | app/page.tsx:179-187 | the breakdown of an all-active map is sorted, is a permutation of the map's rows, and has the map's totals |
| `Buckets.BreakdownDistinct` | app/page.tsx:179-187 | the breakdown of a map with distinct names and only active buckets has at most one row per name |
| `Buckets.BreakdownRates` | app/page.tsx:179-187 | every row of a breakdown comes from a bucket of the map, its rate is the rate of its own counters, and a row with no leads has the rate "0.00%" |
| `Reports.AgentLeadsMembers` | app/page.tsx:153-157 | the lead rows credited to a hire are exactly the rows with the same canonical name whose trimmed label is the company (or the company is empty), one entry per such row: the count is the number of positions that match |
| `Reports.YearHiresMembers` | app/page.tsx:110-115 | the list of a year is exactly the records of that year, one entry per such record |
| `Reports.InsertYear` | app/page.tsx:122-124 | inserting a year adds exactly that year to the set of years |
| `Reports.InsertYearDescending` | app/page.tsx:124 | inserting a year keeps the list strictly descending |
| `Reports.YearsOfShape` | app/page.tsx:111-124 | the years are strictly descending; they are exactly the non-zero years that some record has |
| `Reports.YearKeysPassFilter` | app/page.tsx:123 | every key `String(year)` passes the filter `y && y !== 'null' && !isNaN(Number(y))` |
| `Reports.GroupByYear` | app/page.tsx:109-115 | the grouping has a list for exactly the truthy years with hires, each holding that year's records in order |
| `Reports.ConversionPass` | app/page.tsx:133-147 | the first pass counts every hire of the year and builds exactly `SourceTally` and `BrokerageTally`, one bump per hire in hire order |
| `Reports.CreditAgentLeads` | app/page.tsx:159-167 | one hire's leads are credited to the source and brokerage maps, each under its own tag and label |
| `Reports.LeadPass` | app/page.tsx:149-168 | the second pass totals the credited lead rows (`YearLeads`) and credits each of them to the maps (`SourcesCredited`, `BrokeragesCredited`) |
| `Reports.YearBlock` | app/page.tsx:126-201 | one year gives its yearly row and its source and brokerage breakdowns |
| `Reports.TallyCounts` | app/page.tsx:136-147 | after the first pass both maps have one conversion per hire, no lead, no empty bucket and no name twice |
| `Reports.TallyBuckets` | app/page.tsx:136-147 | after the first pass each map has a bucket for exactly the keys the hires are filed under (source tag, or company/"Unknown"), and each bucket holds one conversion per hire filed under its name |
| `Reports.TallyHasEveryBrokerage` | app/page.tsx:144-146 | every hire's brokerage (its company, or "Unknown") has a bucket |
| `Reports.CreditKeepsBuckets` | app/page.tsx:164-166 | crediting a lead neither adds nor removes a bucket, and keeps buckets active |
| `Reports.CreditManyCounts` | app/page.tsx:159-167 | crediting a hire's leads keeps conversions, the set of buckets and distinct names, and adds at most one lead per lead row |
| `Reports.CreditBrokeragesExact` | app/page.tsx:165-166 | when every label has a bucket, each lead row adds exactly one lead |
| `Reports.LeadPassCounts` | app/page.tsx:149-168 | the lead pass keeps conversions, buckets and distinct names, and adds at most the yearly lead total to either map |
| `Reports.BrokerageLeadsExact` | app/page.tsx:153-166 | when every hire has a company with a bucket, the brokerage map gains exactly the yearly lead total |
| `Reports.YearBlockCounts` | app/page.tsx:133-200 | yearly conversions, the sum over source buckets and the sum over brokerage buckets all equal the year's hire count. Each breakdown's leads are at most the yearly leads. Both breakdowns are sorted, drop no bucket and have one row per name |
| `Reports.BrokerageRowsAccountForLeads` | app/page.tsx:149-200 | when every hire has a company, the brokerage breakdown's leads equal the yearly lead total |
| `Reports.YearlyAt` | app/page.tsx:170-175 | entry `i` of the yearly list is the row of the `i`-th year |
| `Reports.BrokerageBlocksAt` | app/page.tsx:190-201 | block `i` of the brokerage list is labelled with the `i`-th year and holds the brokerage breakdown of that year's hires |
| `Reports.SourceBlocksAt` | app/page.tsx:177-188 | block `i` of the source list is labelled with the `i`-th year and holds the source breakdown of that year's hires |
| `Reports.BuildBlocks` | app/page.tsx:122-202 | the per-year loop pushes exactly `YearlyRows`, `BrokerageBlocks` and `SourceBlocks` of the years, in the years' order |
| `Reports.ReportOf` | app/page.tsx:107-108 | there is no report exactly when there are no hires or the lead rows were never loaded; otherwise the three lists have one entry per year |
| `Reports.GenerateReport` | app/page.tsx:107-210 | the report is `ReportOf`; there is none when there are no hires or no lead rows were loaded |
| `Reports.ReportShape` | app/page.tsx:122-208 | the three lists run in step over the same strictly descending years. Each yearly row's conversions are that year's hire count, and its name reads back as the year |
| `Reports.ReportConservation` | app/page.tsx:126-201 | in every year of a report, the source rows and the brokerage rows each add up to the yearly conversions; neither adds up to more than the yearly leads; both are sorted and name each bucket once |
| `Csv.QuoteAll` | app/page.tsx:224 | every field becomes `"` + value + `"` |
| `Csv.CsvLines` | app/page.tsx:222-224 | one line per row, in order |
| `Csv.LineHasNoNewline` | app/page.tsx:224 | a line of fields without line breaks has no line break |
| `Csv.CsvTextLines` | app/page.tsx:222-225 | the text splits on "\n" into exactly the header line and one line per row |
| `Csv.ReadFieldsOfLine` | app/page.tsx:224 | a line of quote-free fields reads back as those fields |
| `Csv.CsvReadBack` | app/page.tsx:222-225 | without line breaks in any field, the first line is the header line and line `k + 1` reads back as row `k` |
| `Csv.QuoteRoundTrip` | app/page.tsx:224 | a one-field line reads back as its value exactly when the value has no `"`, because nothing is escaped |
| `Csv.ConversionRows` | app/page.tsx:219-221 | one row per conversion, as wide as the header: agent, company and month as cleaned; the source or "N/A" when empty; the lead year or "N/A" without one; a gap that is "N/A" exactly when missing or zero and otherwise reads back as the gap |
| `Csv.ConversionsCsv` | app/page.tsx:213-214 | there is no export exactly when there are no conversions |
| `Csv.ConversionYearAndGap` | app/page.tsx:220 | a missing lead year exports as "N/A"; the gap exports as "N/A" exactly when it is missing or zero, and otherwise as text that reads back as the gap |
| `Csv.ConversionFieldsOfLead` | app/page.tsx:220 | a hire matched to a lead of year `y` exports a lead year that reads back as `y`. Its gap exports as the years from lead to hire, or as "N/A" for year 0 or a hire in the lead's year |
| `Csv.ConversionsCsvLines` | app/page.tsx:213-225 | the export of a non-empty list of conversions is the header line and then one line per conversion, and each line reads back as its fields |
| `Csv.BlockRows` | app/page.tsx:247-249 | one row per brokerage of a block, as wide as the header: the block's year, the brokerage name, conversions and leads as text that reads back as those counts, and the rate |
| `Csv.BrokerageExportRows` | app/page.tsx:242-250 | the nested loop pushes the rows of the blocks with a numeric year, in block order |
| `Csv.BrokerageCsv` | app/page.tsx:236-240 | there is no export exactly when there is no report or it has no brokerage blocks |
| `Csv.BrokerageCsvLines` | app/page.tsx:236-261 | otherwise the export is the header line and then one line per exported row; every row has the header's five columns and reads back as its fields |
| `Csv.FlattenedWidth` | app/page.tsx:247-248 | every exported row has as many fields as the header |
| `Csv.FlattenKeepsAll` | app/page.tsx:244-249 | when every block has a numeric year, no row is dropped |
| `Csv.FlattenedRowsReadBack` | app/page.tsx:244-248 | every exported row has five fields and a numeric year; its conversions and leads read back as counts |
| `Csv.ReportExportKeepsAll` | app/page.tsx:122-123 | the export of a generated report drops no row, because every year key passes the export's numeric filter |

## Left out

- Rendering (JSX) and the React state setters are left out. They are user interface, not logic.
- The `window` globals are explicit parameters and results. The report takes the lead rows as an `Option`, where `None` means they were never loaded.
- `XLSX.read`, `sheet_to_json` and `XLSX.SSF.parse_date_code` are foreign decoders. Rows come in already decoded:
  - a hire date is a year and a month;
  - `Hired` is a number or nothing, so a text cell "1" is nothing;
  - a missing cell is "".
- Cells of other types are left out. Calling `split` or `trim` on a number or a date cell would throw or coerce, and the model has no such cells.
- `new Date(dateStr)` and `getFullYear` are left out. Each lead row carries the year the browser would compute, or `None` for a missing or invalid date.
- The asynchronous upload handlers are left out. This includes the leads handler's `files.forEach(async ...)`, whose outcome depends on timing. `Matcher.ProcessLeadsAndMatch` takes the complete list of lead rows.
- The downloads are left out: Blob, object URLs, the anchor click and `alert`. `Csv.ConversionsCsv` and `Csv.BrokerageCsv` return the text, or `None` where the page alerts.
- `parseInt(agent.hireYear)` is treated as the hire year itself. Hire years are whole numbers in the model.
- The report takes annotated records. Hires that were never matched (uploaded after the leads) behave as records with an empty source, because the report reads only the name, company, year and source.
- `Number(y)` in the year filters is modelled as "an optional minus sign followed by digits". That agrees with `Number` on every key `String(year)` can produce, but not on text such as "1e3" or " 7".
- `Text.Lower`: only ASCII letters are case-mapped; `toLowerCase` also maps non-ASCII letters.
- `Text.Upper`: only ASCII letters are case-mapped; `toUpperCase` also maps non-ASCII letters, some to two characters.
- `SourceTag.Search`: this is the semantics of the one pattern `/source:\s*([^\n]+)/i` only, not a general regular-expression engine. The `i` flag is ASCII case-insensitivity.
- `Buckets.RateIsNearest`: the rate is rounded half-up on the exact ratio. The page formats a double with `toFixed(2)`, which can round the other way where the double lies just below a half.
- `Buckets.SortRowsPermutes`: this lemma and `Buckets.SortRowsSorted` state order and permutation. The sort keeps equal rows in their map order, as a stable sort does, but no lemma states that stability.
- `Leads.KeyOf`: `lead_name?.toString()` of a non-text cell is not modelled; names are text.
