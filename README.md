# EasyLPAC AID handling, modelled in Dafny

EasyLPAC is a desktop front end for the `lpac` eUICC tool. Before `lpac` can
talk to a card it needs the application identifier (AID) of the card's ISD-R
or another application. This project models the part of EasyLPAC that finds
that identifier, and proves properties of the model:

- **The AID catalog** (`aid_parser.go`). `LoadAidList` reads `aid.txt` line
  by line. It keeps `AID: description` records whose identifier, after
  trimming, blank removal and upper-casing, is 4 to 32 upper-case hex digits
  of even length, and it flags identifiers that start with `A000000559` as
  eUICC. `FindBestAid` picks an entry for the configured AID through five
  rules tried in order: exact match, prefix match either way, a 32-digit
  eUICC entry, any eUICC entry, the first entry. `SearchAidList` filters by
  substring. `TestAid` sets the shared configuration's AID, asks `lpac` for
  the profile list and, only if that fails, for the chip info, then restores
  the AID. `FindWorkingAid` probes the eUICC entries first and the others
  after, and stops at the first one accepted.
- **The catalog updater** (`fetch_aids.go`). `fetchAidsFromURL` keeps the
  non-empty lines that are not comments. `mergeAidFiles` lets records from
  several files collapse into one map. For each identifier it keeps the
  longest description, and the first of equally long ones. It sorts the
  identifiers with a hand-written exchange sort and writes one `AID:
  description` line per identifier.
- **The card probe** (`read_stk_applet.py`). This covers the SELECT and READ
  BINARY command bytes and the `read_file` retry when the status is `6C`. It
  also covers the walk over the EF.DIR records (tag `61`) that reports the
  first five bytes of each identifier, both as written and with the
  corrected bounds check (see Findings), the SELECT of six well-known AIDs,
  and `parse_stk_menu`. That last one reads menu items and, when none can be
  read, lists the runs of three or more printable ASCII bytes.

Each pure part of the code is one function plus the lemmas about it. Each
loop that builds a result is a method whose `ensures` ties its result to
that function. The code that changes state models it the way the source
does:

- the shared configuration is a `Config` object;
- `lpac` and the card reader are objects that keep a log of the calls they
  receive;
- the exchange sort works in place on an `array`.

External processes and the card are oracles. An oracle is a function
parameter that decides each answer (`succeeds(probe, aid)`,
`card(history, command)`), so the proofs hold whatever the card does.

Modules, one per file:
- `Wrappers`: Option and Result.
- `SeqUtil`: the order-preserving filter-map that Go `append` loops build, and small sequence facts.
- `StringUtil`: ASCII `TrimSpace`, `ToUpper`, blank removal and `Contains`.
- `StringOrder`: Go's byte-wise `<` on strings and the exchange sort.
- `AidParser`: the catalog line parser, `LoadAidList`, `FindBestAid` and `SearchAidList`.
- `AidProbe`: `TestAid` and `FindWorkingAid`.
- `AidExamples`: the ISD-R constants of `config.go` used as inputs.
- `FetchAids`: the download filter and `mergeAidFiles`.
- `Apdu`: the command builders, the card connection and `read_file`.
- `EfDir`: the EF.DIR walk.
- `KnownAids`: the well-known AIDs and their SELECT loop.
- `Applications`: `list_applications`.
- `StkMenu`: `parse_stk_menu`.

Where the code and its comments disagree, the model follows the code. Four places matter:

- **`FindBestAid` order.** Its doc comment (aid_parser.go:125) says eUICC AIDs are preferred, and the current AID is returned when it is in the list. The code tries the exact match (lines 129-134) and the prefix match either way (lines 136-142) before either eUICC rule (lines 144-156). So a non-eUICC entry that matches wins over every eUICC entry. `AidParser.FindBestAid` states the code's order.
- **`mergeAidFiles` has no hex check.** It accepts any identifier of the right length, hex or not (`FetchAids.MergeVersusLoad`).
- **Menu names are not decoded as UTF-8.** In `parse_stk_menu`, the card returns the menu data as a list of ints, so the `.decode('utf-8')` call fails and the ASCII fallback is used. The model keeps the name bytes.
- **A dead check in the item loop.** The `idx >= len` check after the item identifier is read can never fire, because the check before it already guarantees `idx + 1 < len`. The model has no branch for it.

## Model

| member | source | states |
|---|---|---|
| AidParser.IsValidHex | aid_parser.go:115-122 | true exactly when every character is an upper-case hex digit (the empty string passes) |
| AidParser.SplitRecord | aid_parser.go:57-65 | a skipped or colon-free line gives None; otherwise the two sides of the FIRST colon |
| AidParser.MakeEntry | aid_parser.go:67-104 | None exactly when the normalised identifier fails the hex, parity or 4..32 length check; otherwise a well-formed entry holding the normalised identifier and the trimmed description |
| AidParser.MakeEntryAccepts | aid_parser.go:67-104 | a normalised identifier that passes the checks gives exactly that entry, with the eUICC flag set by the `A000000559` prefix |
| AidParser.ParseLine | aid_parser.go:54-104 | every entry the loader keeps is well formed: valid even-length hex of 4 to 32 digits, flag equal to the prefix test, description trimmed |
| AidParser.ParsedFields | aid_parser.go:54-71 | a kept entry's identifier and description are the normalised text before and the trimmed text after the first colon of the trimmed line |
| AidParser.SkippedLines | aid_parser.go:56-87 | empty, `#`, `Filetype:` and `Version:` lines, lines without a colon, and lines whose identifier fails any check give no entry |
| AidParser.EuiccFlagIffPrefix | aid_parser.go:89-91 | an entry is flagged eUICC exactly when its identifier starts with `A000000559` |
| AidParser.TrimFormatted | aid_parser.go:54 | trimming a formatted `AID: description` line leaves `AID:` and the description, with one blank between them when it is not empty |
| AidParser.HexIsTrimmed | aid_parser.go:67-71 | normalisation leaves a non-empty valid hex identifier unchanged: trimming does |
| AidParser.HexIsBlankFree | aid_parser.go:71 | ... removing blanks does |
| AidParser.HexIsUpper | aid_parser.go:71 | ... upper-casing does |
| AidParser.NormalizeValid | aid_parser.go:67-71 | ... and all three together do |
| AidParser.MakeEntryOfWellFormed | aid_parser.go:67-104 | the fields of a formatted well-formed entry give that entry back |
| AidParser.SplitFormatted | aid_parser.go:62-68 | a formatted well-formed entry splits at the colon after its identifier |
| AidParser.ParseFormatRoundTrip | aid_parser.go:54-104 | round trip: parsing the catalog line of a well-formed entry gives the entry back |
| AidParser.EntriesAppend | aid_parser.go:52-105 | the entries of concatenated input are the concatenated entries: line order is kept |
| AidParser.EntriesMembers | aid_parser.go:52-105 | an entry is in the catalog exactly when some line parses to it, and every entry is well formed |
| AidParser.LoadAidList | aid_parser.go:13-112 | a missing file gives not-found; a scanner error gives an error; otherwise the entries of every line in order |
| AidParser.FirstMatch | aid_parser.go:130-156 | one search loop: the index of the first entry the rule accepts; None only when no entry is accepted |
| AidParser.Pick | aid_parser.go:130-156 | an entry exactly when the rule accepts one, and then the first such entry |
| AidParser.FindBestAid | aid_parser.go:126-164 | None exactly for the empty list; the result is in the list; it is the first exact match if there is one, else the first prefix match, else the first 32-digit eUICC entry, else the first eUICC entry, else the first entry |
| AidParser.PrefixEntryResolves | aid_parser.go:136-141 | a valid hex AID that starts with the ISD-R prefix resolves, in a one-entry catalog holding just that prefix, to that entry |
| AidParser.FilteredAppend | aid_parser.go:176-188 | filtering concatenated lists gives the concatenated results: order is kept |
| AidParser.FilteredCounts | aid_parser.go:176-188 | a matching entry keeps its number of occurrences and a non-matching entry is dropped |
| AidParser.EmptyQueryKeepsAll | aid_parser.go:169-171 | the empty query matches everything |
| AidParser.SearchAidList | aid_parser.go:168-191 | the empty query returns the list unchanged; otherwise the entries whose upper-cased AID or description contains the trimmed, upper-cased query, in order |
| StringUtil.TrimLeft | aid_parser.go:54 | the longest suffix that starts with a non-space; everything dropped is white space |
| StringUtil.TrimRight | aid_parser.go:54 | the longest prefix that ends with a non-space; everything dropped is white space |
| StringUtil.TrimSpace | aid_parser.go:54 | the result is trimmed and no longer than the input |
| StringUtil.TrimSpaceOfTrimmed | aid_parser.go:67-68 | trimming a trimmed text changes nothing |
| StringUtil.TrimLeftSkipsSpaces | aid_parser.go:68 | leading white space before a non-space text is dropped exactly |
| StringUtil.ToUpper | aid_parser.go:71 | same length, every character upper-cased |
| StringUtil.ToUpperOfUpper | aid_parser.go:71 | text without lower-case letters is unchanged |
| StringUtil.RemoveSpaces | aid_parser.go:71 | no blank remains, and every other character occurs exactly as often as in the input; with `RemoveSpacesAppend` this fixes the order too |
| StringUtil.RemoveSpacesOfBlankFree | aid_parser.go:71 | blank-free text is unchanged |
| StringUtil.RemoveSpacesAppend | aid_parser.go:71 | blank removal distributes over concatenation |
| StringUtil.TrimSpaceRemoveSpacesCommute | fetch_aids.go:76 | trimming then removing blanks equals removing blanks then trimming, so the two normalisation orders agree |
| StringUtil.Contains | aid_parser.go:178 | true exactly when the text occurs at some position |
| StringUtil.ColonIndex | aid_parser.go:62 | the index of the first colon, or None when there is no colon |
| AidProbe.TestTrace | aid_parser.go:197-224 | `TestAid` calls profile list first, and chip info only when profile list fails |
| AidProbe.Trace | aid_parser.go:243-254 | testing n entries makes between n and 2n calls |
| AidProbe.TraceAppend | aid_parser.go:243-254 | the calls of two runs of probes in a row are the concatenated calls |
| AidProbe.KindsSorted | aid_parser.go:234-240 | the partition puts every eUICC entry on the first side and every other entry on the second |
| AidProbe.ProbeOrderPermutes | aid_parser.go:234-240 | the probe order (eUICC entries, then the rest) is a permutation of the catalog |
| AidProbe.EuiccEntriesFirst | aid_parser.go:242-254 | in the probe order no other entry comes before an eUICC entry |
| AidProbe.ProbeOrderMembers | aid_parser.go:234-240 | an entry is in the probe order exactly when it is in the catalog |
| AidProbe.RejectedPrefix | aid_parser.go:243-254 | rejected entries at the front are probed and skipped |
| AidProbe.AcceptedAt | aid_parser.go:243-247 | the first accepted entry ends the search; it and everything before it were probed |
| AidProbe.AllRejected | aid_parser.go:243-256 | when nothing is accepted every entry is probed and the result is nil |
| AidProbe.FirstAcceptedConcat | aid_parser.go:242-256 | searching the eUICC list and then the other list is a search of their concatenation |
| AidProbe.ProbedConcat | aid_parser.go:242-256 | the second list is probed only when nothing in the first is accepted |
| AidProbe.FirstAcceptedIsFirst | aid_parser.go:243-256 | nil exactly when nothing is accepted; otherwise an accepted entry with every earlier entry rejected |
| AidProbe.ProbedIsPrefix | aid_parser.go:243-256 | the probed entries are a prefix of the order, ending with the one accepted, or all of them |
| AidProbe.ProbedFromCatalog | aid_parser.go:229-257 | no entry is probed more often than it occurs in the catalog |
| AidProbe.WorkingAidSummary | aid_parser.go:229-257 | nil exactly when no catalog entry is accepted; otherwise a catalog entry; probed entries come from the catalog |
| AidProbe.FourthEntryScenario | aid_parser.go:242-254 | with three rejected eUICC entries, the first accepted other entry is found after four probes |
| AidProbe.SplitByKind | aid_parser.go:231-240 | the partition loop builds the eUICC entries and the other entries, each in catalog order |
| AidProbe.Lpac.ProfileList | aid_parser.go:210 | one profile-list call with the configured AID, answered by the oracle |
| AidProbe.Lpac.ChipInfo | aid_parser.go:222 | one chip-info call with the configured AID, answered by the oracle |
| AidProbe.Lpac.TestAid | aid_parser.go:197-224 | true exactly when profile list or chip info succeeds for `aid`; the calls made are those of the trace, each with `aid` configured; the configured AID is restored afterwards |
| AidProbe.Lpac.TestInTurn | aid_parser.go:243-254 | the first accepted entry, having probed exactly the entries up to it; configuration restored |
| AidProbe.Lpac.FindWorkingAid | aid_parser.go:229-257 | the first accepted entry of the probe order, having probed exactly the entries up to it; configuration restored |
| AidExamples.ConfigAids | config.go:11-14 | the four identifiers of `config.go`, the default first |
| AidExamples.ConfigAidsAreIsdR | config.go:11-14 | each of them is 32 valid hex digits with the ISD-R prefix |
| AidExamples.IsdRRoundTrip | aid_parser.go:54-104 | the catalog line of any full ISD-R identifier parses to an eUICC entry with that identifier and description |
| AidExamples.ConfigLineParses | config.go:11-14 | the catalog line of each of them parses to an eUICC entry |
| AidExamples.ConfigResolvesToPrefixEntry | config.go:11-14 | each of them resolves to a catalog entry holding just the prefix |
| AidExamples.ExactBeatsEarlierPrefix | aid_parser.go:130-142 | for each of them, an exact entry is chosen over a prefix entry listed before it |
| FetchAids.KeptLine | fetch_aids.go:35-36 | a kept line is trimmed, non-empty and not a comment |
| FetchAids.KeptExactly | fetch_aids.go:34-39 | a line is kept exactly when it is the trimmed form of some body line and is non-empty and not a comment |
| FetchAids.KeptAppend | fetch_aids.go:34-39 | the filter keeps line order |
| FetchAids.FetchAidsFromResponse | fetch_aids.go:17-46 | a failed request, a status other than 200 and a read error each give their error; otherwise the kept lines |
| FetchAids.MergeFields | fetch_aids.go:76-82 | a record exactly when the normalised identifier has even length between 4 and 32; with a trimmed description |
| FetchAids.MergeLine | fetch_aids.go:62-82 | every accepted record has an even-length identifier of 4 to 32 characters and a trimmed description |
| FetchAids.MergeSkips | fetch_aids.go:65-74 | skipped lines and lines without a colon give no record |
| FetchAids.MergeVersusLoad | fetch_aids.go:76-82 | every entry the loader accepts is a merge record too; a merge record is accepted by the loader exactly when its identifier is valid hex |
| FetchAids.MergeFormatRoundTrip | fetch_aids.go:62-82 | the catalog line of a well-formed entry merges back to its identifier and description |
| FetchAids.MergedLineLoads | fetch_aids.go:124 | a written line whose identifier is hex loads back as the same entry |
| FetchAids.Insert | fetch_aids.go:85-91 | a new identifier is added; an existing one takes the new description only when it is strictly longer; other keys are untouched |
| FetchAids.MergedKeys | fetch_aids.go:53-98 | the identifiers kept are exactly the identifiers of the accepted records |
| FetchAids.MergedValue | fetch_aids.go:85-91 | each identifier keeps the first of its longest descriptions |
| FetchAids.MergedSnoc | fetch_aids.go:85-91 | one more record updates the map as `Insert` says |
| FetchAids.RecordsAppend | fetch_aids.go:53-98 | records of concatenated input are the concatenated records |
| FetchAids.Emit | fetch_aids.go:123-128 | one `AID: description` line per identifier, in the given order |
| FetchAids.OutputShape | fetch_aids.go:107-128 | the output has one line per identifier, in strictly ascending identifier order, each with that identifier's description |
| FetchAids.ScanLines | fetch_aids.go:60-92 | the map after a file is the merge of the records so far followed by this file's records |
| FetchAids.MergeInputs | fetch_aids.go:50-98 | the map after all inputs is the merge of the records of the files that opened, in order |
| FetchAids.CollectKeys | fetch_aids.go:108-111 | every identifier once, in some order |
| FetchAids.WriteLines | fetch_aids.go:123-128 | the lines written are the emitted lines of the keys |
| FetchAids.MergeAidFiles | fetch_aids.go:49-132 | output that cannot be created gives an error; otherwise the sorted output lines and the number of identifiers |
| StringOrder.LessIrreflexive | fetch_aids.go:116 | no string is below itself under Go's `>` test |
| StringOrder.LessAsymmetric | fetch_aids.go:116 | the order is asymmetric |
| StringOrder.LessTransitive | fetch_aids.go:116 | the order is transitive |
| StringOrder.LessTotal | fetch_aids.go:116 | two different strings are always ordered one way or the other |
| StringOrder.ExchangeSort | fetch_aids.go:114-120 | the nested swap loop sorts the array in place, and the result is a permutation of the input |
| StringOrder.MinimumExists | fetch_aids.go:114-120 | a non-empty set of identifiers has a least element |
| StringOrder.SortedKeysSpec | fetch_aids.go:107-120 | the ascending listing of a set holds exactly its elements, strictly ascending, one per element |
| StringOrder.StrictlySortedUnique | fetch_aids.go:107-120 | a strictly ascending listing of exactly the keys is THE ascending listing, so the written order does not depend on map iteration order |
| StringOrder.DistinctCardinality | fetch_aids.go:108-111 | a repetition-free listing of a set has as many elements as the set |
| StringOrder.PermutationKeepsDistinct | fetch_aids.go:114-120 | swapping elements keeps a listing free of repetitions |
| StringOrder.SortedDistinctIsStrict | fetch_aids.go:114-120 | a sorted listing without repetitions is strictly ascending |
| SeqUtil.FilterMapAppend | aid_parser.go:98-104 | an append loop over concatenated inputs produces the concatenated outputs |
| SeqUtil.FilterMapMembers | aid_parser.go:98-104 | a value is produced exactly when some input element yields it |
| Apdu.HexToBytes | read_stk_applet.py:15 | `toBytes` gives one byte per two hex digits |
| Apdu.BytesToHex | read_stk_applet.py:15 | the inverse partner of `toBytes`: two upper-case hex digits per byte, without the blanks `toHexString` prints (see `HexRoundTrip`) |
| Apdu.HexRoundTrip | read_stk_applet.py:15 | `toBytes` inverts the hex rendering of any byte string |
| Apdu.SelectByNameRoundTrip | read_stk_applet.py:13-16 | the SELECT-by-name command carries its AID back out, with Lc equal to the AID length, and is a byte string for AIDs of up to 255 bytes |
| Apdu.SelectedNameBuilt | read_stk_applet.py:16 | every byte string that reads as a SELECT-by-name command was built from the name it carries |
| Apdu.SplitWord | read_stk_applet.py:22-23 | the high and low byte give back every offset below 65536, and its low 16 bits for any other value |
| Apdu.ReadBinaryRoundTrip | read_stk_applet.py:20-24 | READ BINARY carries its offset and length back out |
| Apdu.SelectByIdRoundTrip | read_stk_applet.py:40-43 | SELECT by file identifier carries its 16-bit identifier back out |
| Apdu.Connection.Transmit | read_stk_applet.py:17 | the reply is the card's answer to the command after everything sent before; the command is logged |
| Apdu.SelectApplication | read_stk_applet.py:13-18 | sends exactly the SELECT-by-name command for the AID; success exactly on 90 00 |
| Apdu.ReadBinary | read_stk_applet.py:20-28 | sends exactly READ BINARY; the data only on 90 00 |
| Apdu.ReadFileProtocol | read_stk_applet.py:38-57 | `read_file` sends SELECT, then READ BINARY with Le 0 only if the SELECT succeeded, then one retry with Le = SW2 only on 6C; data exactly when the last reply is 90 00 |
| Apdu.ReadFile | read_stk_applet.py:38-57 | the data and the commands sent are those of the protocol run |
| EfDir.WalkAsWrittenSound | read_stk_applet.py:69-81 | as written: every reported AID is the first five value bytes of a tag-61 record at a cursor position the walk visits, whose `i + 1 + length` lies within the data, with at least five value bytes claimed and present |
| EfDir.TruncatedRecordReported | read_stk_applet.py:74-77 | a record one byte short of its length is still reported by the walk as written, and not by the corrected walk |
| EfDir.WalkSound | read_stk_applet.py:69-81 | every reported AID is the first five value bytes of a complete tag-61 record with at least five value bytes, at a cursor position the walk visits (0, then each record's end) |
| EfDir.WalkEncodeDir | read_stk_applet.py:69-81 | walking a sequence of application records reports the first five bytes of each, in order |
| EfDir.AsWrittenAgreesOnEncodings | read_stk_applet.py:74 | on well-formed EF.DIR contents the walk as written and the corrected walk agree |
| EfDir.WalkFromIsWalk | read_stk_applet.py:70-79 | walking from cursor `i` is walking the bytes from `i` on |
| EfDir.ReadRecord | read_stk_applet.py:71-78 | one loop pass, with the corrected `i + 2 + length` guard, reports the first five value bytes of a complete record at the cursor |
| EfDir.ParseEfDir | read_stk_applet.py:69-81 | the cursor loop reports exactly the corrected walk of the data |
| EfDir.ReadEfDir | read_stk_applet.py:65-83 | reads file 2F00 with the `read_file` protocol and applies the corrected walk only when the read gave non-empty data |
| KnownAids.CommonAids | read_stk_applet.py:87-94 | the six well-known AIDs, all even-length hex |
| KnownAids.SelectEach | read_stk_applet.py:96-102 | one SELECT per AID; at most one found entry per AID |
| KnownAids.SelectEachShape | read_stk_applet.py:96-102 | the k-th command sent selects the k-th AID, and every found AID is one of those tried |
| KnownAids.SelectCommonAids | read_stk_applet.py:96-108 | the loop finds and sends what `SelectEach` says |
| KnownAids.ProbeCommonAids | read_stk_applet.py:85-108 | the same, over the six well-known AIDs |
| Applications.ListApplications | read_stk_applet.py:59-108 | the AIDs of the corrected EF.DIR walk over file 2F00, then the well-known AIDs that answered, with those commands sent in that order |
| StkMenu.ItemAt | read_stk_applet.py:185-235 | one loop pass stays within the data; an item read has a non-empty name and moves the cursor by 3 + its name length |
| StkMenu.ParseItems | read_stk_applet.py:184-235 | the cursor stays within the data; no more items than announced are read; with 20 or more announced nothing is read |
| StkMenu.ParseItemsBytes | read_stk_applet.py:195-223 | the items read are the consecutive encodings of the bytes from the cursor on |
| StkMenu.ParseItemsEncoded | read_stk_applet.py:184-235 | encodable items laid out to the end of the data, no more than announced and fewer than 20, are read back exactly, and the cursor ends at the end |
| StkMenu.MenuRoundTrip | read_stk_applet.py:163-235 | a menu image of 1 to 19 encodable items headed by its count parses back to those items, with no raw dump |
| StkMenu.ParseMenuBounds | read_stk_applet.py:165-235 | for input of two bytes or more: the count is the first byte, the cursor ends within the data, at most that many items, none at 20 or more |
| StkMenu.RawShownIffNoItems | read_stk_applet.py:238 | the raw dump is shown exactly when no item was read |
| StkMenu.ScanSound | read_stk_applet.py:245-257 | every run reported from any scan state is a maximal printable run of three or more bytes, with its bytes |
| StkMenu.ScanComplete | read_stk_applet.py:245-257 | every maximal printable run of three or more bytes still ahead of the scan is reported |
| StkMenu.TextRunsExact | read_stk_applet.py:245-257 | the scan reports exactly the maximal runs of three or more printable bytes, with first and last index and bytes |
| StkMenu.ScanText | read_stk_applet.py:245-257 | the scan loop returns exactly those runs |
| StkMenu.ReadItems | read_stk_applet.py:177-235 | the item loop returns the items and the cursor the item function gives |
| StkMenu.ParseStkMenu | read_stk_applet.py:163-257 | nothing for input under two bytes; otherwise the count, the items, the final cursor, and the printable runs exactly when no item was read |

## Left out

- File discovery in `LoadAidList` (aid_parser.go:20-49): the executable path, symbolic links and the working directory are I/O. The model takes the catalog as its lines, or as missing.
- The scanner's read error (aid_parser.go:107-109, fetch_aids.go:41-43) is a flag on the input. A read error inside `mergeAidFiles` (fetch_aids.go:95-97) only prints a warning, so an input file is modelled as the lines read before the error.
- `LpacProfileList` and `LpacChipInfo` run the external `lpac` process with a timeout. Their source is not part of this model. They are the oracle `succeeds(probe, aid)`, deterministic in the configured AID.
- HTTP and files in `fetch_aids.go`: the client, its timeout, opening and creating files, `updateAidFile`'s backup and rename, and `main`. The model takes the response as a status and body lines. An input file is either unopenable or its lines, and output creation is a flag.
- FetchAids.MergeAidFiles: the write error of one output line (fetch_aids.go:125-127) is not modelled; the model always writes every line.
- Go map iteration order (fetch_aids.go:109) is unspecified. `CollectKeys` promises only that every identifier appears once, and the sort makes the written order independent of it (`StringOrder.StrictlySortedUnique`).
- Go's Unicode rules for `ToUpper` and `TrimSpace` are not modelled: the model covers ASCII letters and ASCII white space only. Go's `len` counts bytes, which equals the character count only for ASCII.
- Apdu.HexToBytes: only even-length hex text without blanks is modelled. `toBytes` also accepts blanks, and the AIDs here never contain any.
- The card reader, the `pyscard` connection and protocol fallbacks in `main`, `get_response`, `read_application_data` and the GET DATA loop are left out as I/O with the card. The reader is the oracle `card(history, command)`.
- The status printing of `list_applications` (the `6A 82` case at read_stk_applet.py:103-106) only prints, so it is not modelled.
- StkMenu.ParseStkMenu: menu names are kept as raw bytes. Their rendering for printing (read_stk_applet.py:212-221), all other printing, and the outer `except` (read_stk_applet.py:259-261) are left out, as no statement of the modelled code can raise.
- `window.go` (the Fyne user interface and its copy of the test loop), `i18n.go`, `main.go`, `config.go` apart from its AID constants, and `list_aids.py` are not part of this model.
- EfDir.ReadRecord, EfDir.ReadEfDir, Applications.ListApplications: these follow the corrected walk. On an EF.DIR record shorter than its length byte claims (`61 06 01 02 03 04 05`), the script reports `01 02 03 04 05` and these members report nothing. The as-written walk is `EfDir.WalkAsWritten`, which has its own soundness lemma.
- AidProbe.Lpac.TestAid: the configured AID is restored on both returns. Two things are not modelled: restoration by the deferred call when `LpacProfileList` or `LpacChipInfo` panics (aid_parser.go:202-205, and nothing recovers the panic), and other goroutines (window.go) reading `ConfigInstance.LpacAID` while it holds the temporary value.

## Findings

| source | as written | input that shows it | evidently intended | confidence | as-written member | corrected member |
|---|---|---|---|---|---|---|
| read_stk_applet.py:74-77 | a record is read when `i + 1 + length <= len(data)`, and the value slice `data[i + 2:i + 2 + length]` is clamped by Python | EF.DIR bytes `61 06 01 02 03 04 05`: the record announces 6 value bytes but holds 5, and `01 02 03 04 05` is reported as an AID | read a record only when it is complete, `i + 2 + length <= len(data)` | medium, not executed | EfDir.WalkAsWritten, EfDir.WalkAsWrittenSound, EfDir.TruncatedRecordReported | EfDir.Walk, EfDir.WalkSound, EfDir.ParseEfDir |
