# jira-wrangler, modelled in Dafny

jira-wrangler prints a weekly status report from a JIRA tracker. For each
configured label it searches for the open issues ("To Do" or "In Progress")
of project SDE. It groups them by their traffic-light colour, a custom
field, into red, yellow, green and uncoloured buckets. Then it fetches each
issue again, in bucket order, and prints a few lines per issue: key and
summary, status, priority, colour, target end date and the latest
`[report]` comment.

This project models the pipeline that turns raw tracker records into that
ordered, printable report, and proves what it does:

- `raw.dfy` (module `Raw`): the raw record as the client library decodes
  it. It has an optional priority, a map of custom fields holding decoded
  JSON values, and an optional list of comment bodies.
- `jira.dfy` (module `Jira`): `internal/jira/client.go`. It covers the
  colour enumeration, `ParseColor` and `Less`, the field extractors,
  `issueFromRaw`, and the order-preserving conversion in `SearchIssues`.
- `wrangler.dfy` (module `Wrangler`): `cmd/jira-wrangler/main.go`. It
  covers the query string, `groupIssuesByColor`, `printIssue`, and
  `generateReport` against an abstract client. It also compares the bucket
  order with a stable sort by `Less`.
- `legacy.dfy` (module `Legacy`): the older single-file tool, `main.go`.
  Its colour is the raw string with "Not Selected" blanked, and its buckets
  match "Red", "Yellow" and "Green" exactly.
- `versions.dfy` (module `Versions`): where the two versions agree and
  where they part.
- `config.dfy` (module `Config`): `internal/cli/config.go`. `LoadConfig`
  chooses the decoder from the path's extension.
- Shared helpers:
  - `text.dfy`: the `strings` functions used.
  - `quoting.dfy`: Go's `%q` with its inverse.
  - `partition.dfy`: stable bucketing, the specification both groupings
    are proved against.
  - `lines.dfy`: the line layout both `printIssue` functions share.
  - `wrappers.dfy`: `Option` and `Result`.

The model is built as follows:

- The tracker client is a pair of functions: `search` from a query to
  records or an error, and `get` from a key to a record or an error.
- What the report prints is a sequence of `Lines.Line` values, one per
  `Printf` call. `Lines.Text` gives the characters of each.
- `generateReport` also returns the client calls it made, in order.
- Both `groupIssuesByColor` functions fill an array of buckets in place.
- The comment scans are loops that reassign the latest report comment.

A colour field that is a JSON object without a string "value" makes both
versions panic on an unchecked type assertion. The model makes this a
precondition (`Jira.ColorFieldReadable`) of everything that reads the
colour.

The two versions part in these ways:

- The newer client lower-cases the colour and parses it. The older tool
  matches it exactly. A "red" issue is therefore in the red bucket of one
  and the trailing bucket of the other (`Versions.LowerCaseRedDiffers`).
- The newer bucket order puts uncoloured issues last, while `Color.Less`
  ranks them first. The two orders agree exactly when no issue is
  uncoloured, or every issue is (`Wrangler.GroupingMatchesSortIff`).

## Model

| member | source | states |
|---|---|---|
| `Text.TrimLeft` | internal/jira/client.go:121 | The result is a suffix of the input that is empty or starts with a non-space; every character cut is white space. |
| `Text.TrimRight` | internal/jira/client.go:121 | The result is a prefix of the input that is empty or ends with a non-space; every character cut is white space. |
| `Text.TrimSpace` | internal/jira/client.go:121 | The result is no longer than the input, and is empty or starts and ends with a non-space. |
| `Text.TrimSpaceSlice` | internal/jira/client.go:121-124 | The input is the leading part TrimLeft cut, then the trimmed result, then the trailing part TrimRight cut; both cut parts are white space only. |
| `Text.LowerChar` | internal/jira/client.go:131 | ASCII upper-case letters move down by 32; no result is upper case; every other character is unchanged. |
| `Text.ToLower` | internal/jira/client.go:131 | Same length; each character is lowered on its own. |
| `Text.RemoveAll` | internal/jira/client.go:126-127 | The deleted character no longer occurs; every other character of the input is kept and nothing new appears; input without it is unchanged. |
| `Text.RemoveAllCount` | internal/jira/client.go:126-127 | Every character other than the deleted one occurs exactly as many times as in the input (multiset). |
| `Text.RemoveAllAppend` | internal/jira/client.go:126-127 | Deleting from a concatenation gives the deletions from the parts, in the same order. |
| `Quoting.HexDigit` | cmd/jira-wrangler/main.go:78-81 | Each digit written for a `\x` escape reads back as its value. |
| `Quoting.QuoteRoundTrip` | cmd/jira-wrangler/main.go:78-81 | Unquoting the `%q` form of a label gives the label back: quoting loses nothing. |
| `Raw.Field` | internal/jira/client.go:96 | Indexing the custom-field map: a missing key gives nil, a present key its value. |
| `Partition.SelectMembers` | cmd/jira-wrangler/main.go:133-141 | A bucket holds exactly the elements whose bucket number it is. |
| `Partition.SelectStable` | cmd/jira-wrangler/main.go:133-141 | Each bucket keeps the input's relative order. |
| `Partition.BucketsPermutation` | cmd/jira-wrangler/main.go:127-144 | The buckets together are a permutation of the input, of the same length. |
| `Jira.ParseColor` | internal/jira/client.go:130-141 | Red, Yellow or Green exactly when the lower-cased input is "red", "yellow" or "green". |
| `Jira.ParseColorName` | internal/jira/client.go:130-147 | Parsing a colour's own name gives that colour back, ColorNone included. |
| `Jira.ParseColorIgnoresCase` | internal/jira/client.go:130-141 | Inputs equal up to ASCII case parse to the same colour. |
| `Jira.ParseColorRejectsSpace` | internal/jira/client.go:130-141 | Any white space anywhere, leading or trailing included, gives ColorNone. |
| `Jira.ParseColorExamples` | internal/jira/client.go:130-141 | "Red", "RED" and "red" give Red; "" and " red " give ColorNone. |
| `Jira.LessIsStrictTotalOrder` | internal/jira/client.go:149-165 | `Less` is irreflexive and transitive; for distinct colours exactly one direction holds; None < Red < Yellow < Green. |
| `Jira.PriorityFromRaw` | internal/jira/client.go:85-93 | "" for an absent priority or one named "Undefined", otherwise the name; never "Undefined". |
| `Jira.ColorFromRaw` | internal/jira/client.go:95-103 | ColorNone unless the field is an object; for an object, the parse of its "value" string (which must be a string). |
| `Jira.CustomStringFieldFromRaw` | internal/jira/client.go:105-112 | "" for an absent or null field, the string for a string field, the printed form otherwise. |
| `Jira.OneLine` | internal/jira/client.go:126-127 | No new-line or carriage return remains; text without them is unchanged. |
| `Jira.OneLineCount` | internal/jira/client.go:126-127 | Every character other than a new-line or carriage return occurs exactly as often as in the input (multiset). |
| `Jira.OneLineKeepsOrder` | internal/jira/client.go:126-127 | OneLine of a concatenation is OneLine of the parts in order, and a single character is dropped exactly when it is a line break, which fixes the result character by character. |
| `Jira.LastReportWins` | internal/jira/client.go:119-125 | The last report comment decides the result, even when its remainder is empty. |
| `Jira.LastReportNone` | internal/jira/client.go:119-125 | Without any report comment the result is "". |
| `Jira.ReportStatusExample` | internal/jira/client.go:114-128 | The comments "[report] first", "x", "[report]  second \r\n" give "second". |
| `Jira.StatusCommentFromRaw` | internal/jira/client.go:114-128 | The loop computes the status comment: "" without comments, else the last report payload on one line. |
| `Jira.IssueFromRaw` | internal/jira/client.go:63-73 | Key, status and summary are copied verbatim; colour, priority, status comment and target end are the results of the normalising extractors. |
| `Jira.MissingFieldsDefault` | internal/jira/client.go:63-73 | A record without colour, target-end and comments normalises to ColorNone, "" and "". |
| `Jira.GetIssue` | internal/jira/client.go:37-44 | A fetch error is wrapped with "getting issue: "; a fetched record is normalised. |
| `Jira.SearchIssues` | internal/jira/client.go:46-61 | A query error is wrapped; otherwise exactly one normalised issue per raw result, in the same order. |
| `Lines.Emit` | cmd/jira-wrangler/main.go:101-117 | The conditional writes produce exactly the rendering: heading, status, then each non-empty optional line. |
| `Lines.RenderShape` | cmd/jira-wrangler/main.go:101-117 | Heading and status come first; the labelled lines are an ordered subsequence of priority, colour, target end, comment; a labelled line appears iff its value is non-empty. |
| `Lines.RenderTextShape` | cmd/jira-wrangler/main.go:105-116 | The printed texts contain a field's labelled text iff that field is non-empty, showing its value. |
| `Lines.TextDetermines` | cmd/jira-wrangler/main.go:103-116 | A status or labelled line's printed text fixes its kind, label and value. |
| `Lines.HeadingTextAmbiguous` | cmd/jira-wrangler/main.go:102 | Two different key/summary pairs can print the same heading text. |
| `Wrangler.BucketIndex` | cmd/jira-wrangler/main.go:119-139 | A ranked colour goes to its position in `colorRank`; any other colour to the trailing bucket 3. |
| `Wrangler.ColorBuckets` | cmd/jira-wrangler/main.go:127-144 | Buckets 0-2 hold exactly the Red, Yellow and Green issues, bucket 3 the ColorNone ones; each is stable; together they are a permutation. |
| `Wrangler.GroupIssuesByColor` | cmd/jira-wrangler/main.go:127-144 | The in-place fill returns 4 buckets, equal to the stable partition by bucket index. |
| `Wrangler.Query` | cmd/jira-wrangler/main.go:78-81 | The fixed project, status and ordering text surrounds the label; the quoted label unquotes back to the label. |
| `Wrangler.PrintIssue` | cmd/jira-wrangler/main.go:101-117 | The lines written are the rendering of the issue's strings. |
| `Wrangler.PrintedLines` | cmd/jira-wrangler/main.go:101-117 | Heading and status first; a Color line iff the colour is not ColorNone, showing its name; other labelled lines iff non-empty. |
| `Wrangler.FirstFailureSpec` | cmd/jira-wrangler/main.go:89-93 | Every fetch before the first failure succeeds, and the one there fails. |
| `Wrangler.VisitStopped` | cmd/jira-wrangler/main.go:91-93 | After a fetch error, later issues change neither output nor calls. |
| `Wrangler.VisitMeaning` | cmd/jira-wrangler/main.go:87-98 | Visiting prints all fetched issues when none fails. Otherwise it prints those before the first failure, fetches up to and including it, and returns its error. |
| `Wrangler.GenerateReport` | cmd/jira-wrangler/main.go:77-99 | A search error comes back after the single search call, nothing printed. Otherwise the output, the call log and the error are exactly those of visiting the grouped order. |
| `Wrangler.SortByColorByRank` | internal/jira/client.go:149-165 | A stable sort by `Less` lists the issues rank by rank, each rank in input order. |
| `Wrangler.GroupedOrderByRank` | cmd/jira-wrangler/main.go:127-144 | The report visits Red, Yellow and Green issues first, then ColorNone ones, each in input order. |
| `Wrangler.GroupingMatchesSortIff` | cmd/jira-wrangler/main.go:136-139 | Bucket order equals the stable `Less` sort iff no issue is ColorNone or all are. |
| `Config.FinalElementStart` | internal/cli/config.go:23 | The final path element starts after the last slash and contains no slash. |
| `Config.Ext` | internal/cli/config.go:23 | `filepath.Ext`: a suffix of the final element. It starts with its only dot, or is empty when that element has no dot. |
| `Config.Extension` | internal/cli/config.go:23 | The extension with its leading dot removed. |
| `Config.LoadConfig` | internal/cli/config.go:15-33 | A read error is wrapped before the extension is looked at. Only "yaml" and "yml" are decoded; other extensions give ErrUnknownFileType. A decode error is wrapped; success returns the decoded config. |
| `Config.ExtAfterLastDot` | internal/cli/config.go:23 | The extension of a name is the text after its last dot. |
| `Config.NoExtAfterSlash` | internal/cli/config.go:23 | A dot in a directory name is not an extension. |
| `Config.LoadConfigExamples` | internal/cli/config.go:23-29 | "config.YAML" and "conf.d/config" are unknown types; "a.b.yml" loads like "config.yaml"; an unreadable ".json" gives the read error. |
| `Legacy.GetColor` | main.go:126-136 | "" unless the field is an object; otherwise its "value" verbatim, except "Not Selected" becomes ""; never "Not Selected". |
| `Legacy.GetPriority` | main.go:138-146 | The same rule as the newer `priorityFromRaw`. |
| `Legacy.GetCustomField` | main.go:148-154 | "" for an absent or null field, the string for a string field, fmt's `%s` rendering otherwise. |
| `Legacy.StatusComment` | main.go:156-169 | The loop computes the same status comment as the newer client, without new-lines or carriage returns. |
| `Legacy.ColorBucket` | main.go:171-185 | "Red", "Yellow", "Green" go to their position in `colorRank`; every other string to bucket 3. |
| `Legacy.ColorBucketExamples` | main.go:181-183 | The match is case-sensitive: "red", "RED" and "" go to bucket 3. |
| `Legacy.ColorBuckets` | main.go:171-188 | Buckets 0-2 hold exactly the records with colour string "Red", "Yellow", "Green", bucket 3 the rest; each is stable; together a permutation. |
| `Legacy.GroupIssuesByColor` | main.go:171-188 | The in-place fill returns 4 buckets, equal to the stable partition by colour string. |
| `Legacy.PrintIssue` | main.go:108-124 | The lines written are the rendering of the record's extracted strings. |
| `Versions.NotSelectedIsNoColor` | main.go:132-134 | "Not Selected" parses to ColorNone, so blanking it changes no parsed colour. |
| `Versions.ColorIsParsedLegacyColor` | main.go:126-136 | The newer colour is the parse of the older colour string. |
| `Versions.BucketsAgreeIff` | main.go:171-188 | A record lands in the same bucket in both versions iff its colour string is exactly a ranked name or the newer colour is ColorNone. |
| `Versions.LowerCaseRedDiffers` | main.go:22 | A "red" record is in bucket 0 for the newer tool and bucket 3 for the older. |
| `Versions.ColorNamesAgreeIff` | main.go:115-117 | The Color line agrees iff the older colour string is "" or exactly a ranked name. |
| `Versions.CustomFieldAgreesIff` | main.go:148-154 | The target end agrees iff the field is absent, null or a string, or `%s` and the plain rendering coincide. |
| `Versions.PrintAgreesIff` | main.go:108-124 | Both versions print the same lines for a record iff its colour text and target-end text agree. |
| `Versions.GroupingAgrees` | main.go:171-188 | When every record's bucket agrees, the older buckets, normalised, are the newer buckets of the normalised records. |

## Left out

- HTTP, authentication and client construction (`NewClient`, the network side of `GetIssue` and `SearchIssues`): the tracker is two functions passed in.
- Process control: `main` in both programs, flag and cobra handling, signal contexts and `os.Exit`. Also left out are the report writer (`internal/cli/report_writer.go`, a template over the wall clock), the option helpers and the build tooling in `magefile.go`.
- The older tool's `generateReport` (main.go:84-106) is not modelled. Its shape is the newer one's; its pieces (`getColor`, grouping, `printIssue`) are.
- Output is modelled as the sequence of `Printf` calls (`Lines.Line`), with `Lines.Text` giving each call's characters without the new-line; writing to standard output is not modelled.
- Text.ToLower: only ASCII letters are lowered, where `strings.ToLower` lowers every Unicode letter. A colour string with a non-ASCII letter is compared as written.
- Raw.Value: fmt's rendering of a non-string custom field (`fmt.Sprint` in the newer client) is carried in the value as `printed`, not computed. The older tool's `%s` rendering of such values is the parameter `formatS`.
- Quoting.Quote: `%q` is exact for ASCII. Non-printable characters above ASCII, which Go writes as `\u` or `\U` escapes, are copied.
- Nil pointers other than the optional priority and comment container are not modelled: issue records and their `Fields` are always present.
