/**
 * The AID catalog of aid_parser.go: parsing `<hex>: <description>` lines
 * into entries, loading a catalog, choosing the best entry for the AID
 * currently configured, and searching the catalog.
 */
module AidParser {

  import opened Wrappers
  import opened StringUtil
  import opened SeqUtil

  /** One catalog record (Go's `AidItem`). */
  datatype AidItem = AidItem(aid: string, description: string, isEuicc: bool)

  /** Prefix shared by the eUICC ISD-R identifiers. */
  function EuiccPrefix(): string { "A000000559" }

  predicate IsHexDigit(c: char) {
    ('0' <= c <= '9') || ('A' <= c <= 'F')
  }

  /** Go's `isValidHex`: only upper-case hex digits; the empty string passes. */
  function IsValidHex(s: string): (r: bool)
    ensures r <==> forall i :: 0 <= i < |s| ==> IsHexDigit(s[i])
  {
    if s == [] then true
    else if !IsHexDigit(s[0]) then false
    else
      assert forall i :: 0 < i < |s| ==> s[i] == s[1..][i - 1];
      IsValidHex(s[1..])
  }

  /** A trimmed line that the loaders skip before looking for a colon. */
  predicate IsSkipped(line: string) {
    line == "" || "#" <= line || "Filetype:" <= line || "Version:" <= line
  }

  /** The identifier as the loader normalises it: trimmed, blanks removed, upper case. */
  function NormalizeAid(s: string): string {
    ToUpper(RemoveSpaces(TrimSpace(s)))
  }

  /** What every entry the loader produces satisfies. */
  predicate WellFormed(e: AidItem) {
    && IsValidHex(e.aid)
    && |e.aid| % 2 == 0
    && 4 <= |e.aid| <= 32
    && e.isEuicc == (EuiccPrefix() <= e.aid)
    && IsTrimmed(e.description)
  }

  /** No colon among the first `k` characters. */
  predicate NoColonBefore(line: string, k: nat) {
    forall j :: 0 <= j < k && j < |line| ==> line[j] != ':'
  }

  /** The two sides of a trimmed record line around its first colon; None for skipped lines and lines without a colon. */
  function SplitRecord(line: string): (r: Option<(string, string)>)
    ensures r.Some? ==> exists k :: 0 <= k < |line| && line[k] == ':' && NoColonBefore(line, k)
                                    && r.value == (line[..k], line[k + 1..])
    ensures r.None? ==> IsSkipped(line) || NoColonBefore(line, |line|)
  {
    if IsSkipped(line) then None
    else match ColonIndex(line)
      case None => None
      case Some(k) => Some((line[..k], line[k + 1..]))
  }

  /** A skipped line, or one without a colon, is not split. */
  lemma SplitRecordNone(line: string)
    requires IsSkipped(line) || NoColonBefore(line, |line|)
    ensures SplitRecord(line) == None
  {
    if !IsSkipped(line) && ColonIndex(line).Some? {
      assert false;
    }
  }

  /** A line that is not skipped is split at its first colon. */
  lemma SplitRecordAt(line: string, k: nat)
    requires !IsSkipped(line)
    requires k < |line| && line[k] == ':' && NoColonBefore(line, k)
    ensures SplitRecord(line) == Some((line[..k], line[k + 1..]))
  {
    var c := ColonIndex(line);
    if c != Some(k) {
      assert false;
    }
  }

  /** The validation and normalisation of the identifier and the description of one record. */
  function MakeEntry(left: string, right: string): (r: Option<AidItem>)
    ensures r.Some? ==> WellFormed(r.value)
    ensures r.Some? ==> r.value.aid == NormalizeAid(left) && r.value.description == TrimSpace(right)
    ensures r.None? <==> var aidHex := NormalizeAid(left);
                         !IsValidHex(aidHex) || |aidHex| % 2 != 0 || |aidHex| < 4 || |aidHex| > 32
  {
    var aidHex := NormalizeAid(left);
    var description := TrimSpace(right);
    if !IsValidHex(aidHex) then None
    else if |aidHex| % 2 != 0 then None
    else if |aidHex| < 4 || |aidHex| > 32 then None
    else Some(AidItem(aidHex, description, EuiccPrefix() <= aidHex))
  }

  /** An identifier that passes every check yields the entry built from the normalised fields. */
  lemma MakeEntryAccepts(left: string, right: string)
    requires var aidHex := NormalizeAid(left);
             IsValidHex(aidHex) && |aidHex| % 2 == 0 && 4 <= |aidHex| <= 32
    ensures MakeEntry(left, right) ==
              Some(AidItem(NormalizeAid(left), TrimSpace(right), EuiccPrefix() <= NormalizeAid(left)))
  {
  }

  /** The body of the scan loop of `LoadAidList`: one line to at most one entry. */
  function ParseLine(raw: string): (r: Option<AidItem>)
    ensures r.Some? ==> WellFormed(r.value)
  {
    match SplitRecord(TrimSpace(raw))
    case None => None
    case Some(parts) => MakeEntry(parts.0, parts.1)
  }

  /** What a surviving entry is made of: the normalised text left of the first colon and the trimmed text right of it. */
  lemma ParsedFields(raw: string)
    requires ParseLine(raw).Some?
    ensures var line := TrimSpace(raw);
            var e := ParseLine(raw).value;
            exists k :: 0 <= k < |line| && line[k] == ':' && NoColonBefore(line, k)
                        && e.aid == NormalizeAid(line[..k])
                        && e.description == TrimSpace(line[k + 1..])
  {
  }

  /** The lines that produce no entry (and no error). */
  lemma SkippedLines(raw: string)
    ensures var line := TrimSpace(raw);
            (|| line == ""
             || "#" <= line
             || "Filetype:" <= line
             || "Version:" <= line
             || ':' !in line)
            ==> ParseLine(raw) == None
    ensures var line := TrimSpace(raw);
            forall k :: 0 <= k < |line| && line[k] == ':' && NoColonBefore(line, k) ==>
              var aidHex := NormalizeAid(line[..k]);
              (!IsValidHex(aidHex) || |aidHex| % 2 != 0 || |aidHex| < 4 || |aidHex| > 32)
              ==> ParseLine(raw) == None
  {
    var line := TrimSpace(raw);
    if ':' !in line {
      assert NoColonBefore(line, |line|);
    }
    if IsSkipped(line) || ':' !in line {
      SplitRecordNone(line);
    }
    forall k | 0 <= k < |line| && line[k] == ':' && NoColonBefore(line, k) && !IsSkipped(line)
      ensures SplitRecord(line) == Some((line[..k], line[k + 1..]))
    {
      SplitRecordAt(line, k);
    }
  }

  /** The eUICC flag of an entry is set exactly by the ISD-R prefix. */
  lemma EuiccFlagIffPrefix(raw: string)
    requires ParseLine(raw).Some?
    ensures ParseLine(raw).value.isEuicc <==> EuiccPrefix() <= ParseLine(raw).value.aid
  {
  }

  /** The `AID: description` form in which catalog lines are written. */
  function FormatLine(aid: string, description: string): string {
    aid + ": " + description
  }

  /** The right-hand side of the first colon in a formatted line, once the line is trimmed. */
  function FormattedRight(d: string): string {
    if d == [] then [] else [' '] + d
  }

  lemma TrimFormattedEmpty(aid: string)
    requires |aid| > 0 && !IsSpace(aid[0])
    ensures TrimSpace(FormatLine(aid, [])) == aid + ":" + FormattedRight([])
  {
    var line := FormatLine(aid, []);
    assert line[..|line| - 1] == aid + ":";
    TrimRightOfTrimmed(aid + ":");
    TrimLeftOfTrimmed(aid + ":");
    assert aid + ":" + FormattedRight([]) == aid + ":";
  }

  lemma TrimFormattedNonEmpty(aid: string, d: string)
    requires |aid| > 0 && !IsSpace(aid[0])
    requires d != [] && IsTrimmed(d)
    ensures TrimSpace(FormatLine(aid, d)) == aid + ":" + FormattedRight(d)
  {
    var line := FormatLine(aid, d);
    assert line[|line| - 1] == d[|d| - 1];
    TrimRightOfTrimmed(line);
    TrimLeftOfTrimmed(line);
    assert aid + ":" + FormattedRight(d) == line;
  }

  /** A formatted record line trims to itself, except that an empty description leaves just the colon. */
  lemma TrimFormatted(aid: string, d: string)
    requires |aid| > 0 && !IsSpace(aid[0])
    requires IsTrimmed(d)
    ensures TrimSpace(FormatLine(aid, d)) == aid + ":" + FormattedRight(d)
  {
    if d == [] {
      TrimFormattedEmpty(aid);
    } else {
      TrimFormattedNonEmpty(aid, d);
    }
  }

  /** A line that starts with two hex digits is not a comment or metadata line. */
  lemma HexStartNotSkipped(t: string)
    requires |t| >= 2 && IsHexDigit(t[0]) && IsHexDigit(t[1])
    ensures !IsSkipped(t)
  {
    assert t[..1][0] == t[0] && t[..2][1] == t[1];
    assert !("#" <= t) by { assert "#"[0] != t[0]; }
    assert !("Version:" <= t) by { assert "Version:"[0] != t[0]; }
    assert !("Filetype:" <= t) by { assert "Filetype:"[1] != t[1]; }
  }

  lemma HexIsTrimmed(aid: string)
    requires IsValidHex(aid) && |aid| > 0
    ensures TrimSpace(aid) == aid
  {
    assert IsHexDigit(aid[0]) && IsHexDigit(aid[|aid| - 1]);
    TrimSpaceOfTrimmed(aid);
  }

  lemma HexIsBlankFree(aid: string)
    requires IsValidHex(aid)
    ensures RemoveSpaces(aid) == aid
  {
    RemoveSpacesOfBlankFree(aid);
  }

  lemma HexIsUpper(aid: string)
    requires IsValidHex(aid)
    ensures ToUpper(aid) == aid
  {
    ToUpperOfUpper(aid);
  }

  /** A well-formed identifier is its own normal form. */
  lemma NormalizeValid(aid: string)
    requires IsValidHex(aid) && |aid| > 0
    ensures NormalizeAid(aid) == aid
  {
    HexIsTrimmed(aid);
    HexIsBlankFree(aid);
    HexIsUpper(aid);
  }

  /** The description side of a formatted line trims back to the description. */
  lemma TrimDescription(d: string)
    requires IsTrimmed(d)
    ensures TrimSpace(FormattedRight(d)) == d
  {
    if d != [] {
      TrimRightOfTrimmed([' '] + d);
      TrimLeftSkipsSpaces([' '], d);
    }
  }

  /** Validating the two sides of a well-formed entry's line rebuilds the entry. */
  lemma MakeEntryOfWellFormed(e: AidItem)
    requires WellFormed(e)
    ensures MakeEntry(e.aid, FormattedRight(e.description)) == Some(e)
  {
    NormalizeValid(e.aid);
    TrimDescription(e.description);
    MakeEntryAccepts(e.aid, FormattedRight(e.description));
  }

  /** A formatted line of a well-formed entry splits into the identifier and the formatted description. */
  lemma SplitFormatted(e: AidItem)
    requires WellFormed(e)
    ensures SplitRecord(TrimSpace(FormatLine(e.aid, e.description)))
            == Some((e.aid, FormattedRight(e.description)))
  {
    var aid, d := e.aid, e.description;
    assert IsHexDigit(aid[0]) && IsHexDigit(aid[1]);
    TrimFormatted(aid, d);
    var t := aid + ":" + FormattedRight(d);
    assert t[0] == aid[0] && t[1] == aid[1];
    HexStartNotSkipped(t);
    assert t[|aid|] == ':' && t[..|aid|] == aid && t[|aid| + 1..] == FormattedRight(d);
    assert NoColonBefore(t, |aid|) by {
      forall j | 0 <= j < |aid| ensures t[j] != ':' {
        assert t[j] == aid[j];
      }
    }
    SplitRecordAt(t, |aid|);
  }

  /** Writing a well-formed entry as a line and parsing it back gives the entry. */
  lemma ParseFormatRoundTrip(e: AidItem)
    requires WellFormed(e)
    ensures ParseLine(FormatLine(e.aid, e.description)) == Some(e)
  {
    SplitFormatted(e);
    MakeEntryOfWellFormed(e);
  }

  // ---------------------------------------------------------------------
  // Loading a catalog

  /** What the catalog file looks like to the parser: absent, or the lines read and whether reading stopped on an error. */
  datatype CatalogSource = Missing | Lines(lines: seq<string>, readFailed: bool)

  datatype LoadError = NotFound | ReadError

  /** The entries that a sequence of lines yields, in file order. */
  function Entries(lines: seq<string>): (r: seq<AidItem>)
    ensures |r| <= |lines|
  {
    FilterMap(ParseLine, lines)
  }

  /** Scanning one more line adds its entry, if it has one, at the end. */
  lemma EntriesPrefixStep(lines: seq<string>, i: nat)
    requires i < |lines|
    ensures Entries(lines[..i + 1]) == Entries(lines[..i]) + OptionToSeq(ParseLine(lines[i]))
  {
    PrefixSnoc(lines, i);
    FilterMapSnoc(ParseLine, lines[..i], lines[i]);
  }

  /** Concatenating files concatenates their entries: file order is kept. */
  lemma EntriesAppend(a: seq<string>, b: seq<string>)
    ensures Entries(a + b) == Entries(a) + Entries(b)
  {
    FilterMapAppend(ParseLine, a, b);
  }

  /** An entry is loaded exactly when some line parses to it, and then it satisfies the catalog invariant. */
  lemma EntriesMembers(lines: seq<string>, e: AidItem)
    ensures e in Entries(lines) <==> exists i :: 0 <= i < |lines| && ParseLine(lines[i]) == Some(e)
    ensures e in Entries(lines) ==> WellFormed(e)
  {
    FilterMapMembers(ParseLine, lines, e);
  }

  /** `LoadAidList` from the point where the file is open: scan every line, keep what parses. */
  method LoadAidList(source: CatalogSource) returns (r: Result<seq<AidItem>, LoadError>)
    ensures source.Missing? ==> r == Failure(NotFound)
    ensures source.Lines? && source.readFailed ==> r == Failure(ReadError)
    ensures source.Lines? && !source.readFailed ==> r == Success(Entries(source.lines))
  {
    if source.Missing? {
      return Failure(NotFound);
    }
    var lines := source.lines;
    var aidList: seq<AidItem> := [];
    var i := 0;
    while i < |lines|
      invariant 0 <= i <= |lines|
      invariant aidList == Entries(lines[..i])
    {
      EntriesPrefixStep(lines, i);
      var parsed := ParseLine(lines[i]);
      if parsed.Some? {
        aidList := aidList + [parsed.value];
      }
      i := i + 1;
    }
    assert lines[..i] == lines;
    if source.readFailed {
      return Failure(ReadError);
    }
    return Success(aidList);
  }

  // ---------------------------------------------------------------------
  // FindBestAid

  /** The five rules of `FindBestAid`, in the order they are tried. */
  datatype Rule = Exact | Prefix | Euicc32 | AnyEuicc | Head

  predicate Matches(rule: Rule, cur: string, item: AidItem) {
    match rule
    case Exact => item.aid == cur
    case Prefix => item.aid <= cur || cur <= item.aid
    case Euicc32 => item.isEuicc && |item.aid| == 32
    case AnyEuicc => item.isEuicc
    case Head => true
  }

  predicate HasMatch(rule: Rule, cur: string, list: seq<AidItem>) {
    exists i :: 0 <= i < |list| && Matches(rule, cur, list[i])
  }

  /** `e` is the first entry of `list` that satisfies `rule`. */
  predicate FirstMatching(rule: Rule, cur: string, list: seq<AidItem>, e: AidItem) {
    exists i :: 0 <= i < |list| && list[i] == e && Matches(rule, cur, e)
                && forall j :: 0 <= j < i ==> !Matches(rule, cur, list[j])
  }

  /** The index of the first entry a rule accepts (one search loop of `FindBestAid`). */
  function FirstMatch(rule: Rule, cur: string, list: seq<AidItem>): (r: Option<nat>)
    ensures r.Some? ==> r.value < |list| && Matches(rule, cur, list[r.value])
                        && forall j :: 0 <= j < r.value ==> !Matches(rule, cur, list[j])
    ensures r.None? ==> !HasMatch(rule, cur, list)
  {
    if list == [] then None
    else if Matches(rule, cur, list[0]) then Some(0)
    else match FirstMatch(rule, cur, list[1..])
      case None =>
        assert forall i :: 0 < i < |list| ==> list[i] == list[1..][i - 1];
        None
      case Some(k) => Some(k + 1)
  }

  /** The entry at the first index a rule accepts, if any. */
  function Pick(rule: Rule, cur: string, list: seq<AidItem>): (r: Option<AidItem>)
    ensures r.Some? <==> HasMatch(rule, cur, list)
    ensures r.Some? ==> FirstMatching(rule, cur, list, r.value)
  {
    match FirstMatch(rule, cur, list)
    case None => None
    case Some(i) => Some(list[i])
  }

  /** Go's `FindBestAid`: exact match, then prefix either way, then the first 32-digit eUICC entry, then any eUICC entry, then the first entry. */
  function FindBestAid(currentAid: string, list: seq<AidItem>): (r: Option<AidItem>)
    ensures r.None? <==> list == []
    ensures r.Some? ==> r.value in list
    ensures var cur := ToUpper(RemoveSpaces(currentAid));
            && (HasMatch(Exact, cur, list) ==> r.Some? && FirstMatching(Exact, cur, list, r.value))
            && (!HasMatch(Exact, cur, list) && HasMatch(Prefix, cur, list) ==>
                 r.Some? && FirstMatching(Prefix, cur, list, r.value))
            && (!HasMatch(Exact, cur, list) && !HasMatch(Prefix, cur, list) && HasMatch(Euicc32, cur, list) ==>
                 r.Some? && FirstMatching(Euicc32, cur, list, r.value))
            && (!HasMatch(Exact, cur, list) && !HasMatch(Prefix, cur, list) && !HasMatch(Euicc32, cur, list)
                && HasMatch(AnyEuicc, cur, list) ==>
                 r.Some? && FirstMatching(AnyEuicc, cur, list, r.value))
            && ((!HasMatch(Exact, cur, list) && !HasMatch(Prefix, cur, list) && !HasMatch(AnyEuicc, cur, list)
                 && list != []) ==> r == Some(list[0]))
  {
    var cur := ToUpper(RemoveSpaces(currentAid));
    var exact := Pick(Exact, cur, list);
    if exact.Some? then exact
    else
      var prefix := Pick(Prefix, cur, list);
      if prefix.Some? then prefix
      else
        var full := Pick(Euicc32, cur, list);
        if full.Some? then full
        else
          var any := Pick(AnyEuicc, cur, list);
          if any.Some? then any
          else if |list| > 0 then Some(list[0])
          else None
  }

  /** A configured AID that extends the ISD-R prefix resolves to a catalog entry holding just that prefix. */
  lemma PrefixEntryResolves(cur: string, desc: string)
    requires IsValidHex(cur) && EuiccPrefix() <= cur
    ensures var base := AidItem(EuiccPrefix(), desc, true);
            FindBestAid(cur, [base]) == Some(base)
  {
    var base := AidItem(EuiccPrefix(), desc, true);
    HexIsBlankFree(cur);
    HexIsUpper(cur);
    assert Matches(Prefix, cur, base);
  }

  // ---------------------------------------------------------------------
  // SearchAidList

  /** An entry matches a (normalised) query on its identifier or its description, ignoring case. */
  predicate Hit(query: string, item: AidItem) {
    Contains(ToUpper(item.aid), query) || Contains(ToUpper(item.description), query)
  }

  /** The entries that match, in catalog order. */
  function Filtered(query: string, list: seq<AidItem>): (r: seq<AidItem>)
    ensures |r| <= |list|
  {
    if list == [] then []
    else Filtered(query, list[..|list| - 1])
         + (if Hit(query, list[|list| - 1]) then [list[|list| - 1]] else [])
  }

  /** Scanning one more entry adds it at the end when it matches. */
  lemma FilteredPrefixStep(query: string, list: seq<AidItem>, i: nat)
    requires i < |list|
    ensures Filtered(query, list[..i + 1]) ==
              Filtered(query, list[..i]) + (if Hit(query, list[i]) then [list[i]] else [])
  {
    assert list[..i + 1][..i] == list[..i];
  }

  /** Filtering distributes over concatenation: catalog order is preserved. */
  lemma {:induction false} FilteredAppend(query: string, a: seq<AidItem>, b: seq<AidItem>)
    ensures Filtered(query, a + b) == Filtered(query, a) + Filtered(query, b)
    decreases |b|
  {
    if b == [] {
      assert a + b == a;
    } else {
      var b' := b[..|b| - 1];
      assert (a + b)[..|a + b| - 1] == a + b';
      assert (a + b)[|a + b| - 1] == b[|b| - 1];
      FilteredAppend(query, a, b');
    }
  }

  /** Each matching entry appears as often as in the catalog (once for a single entry, even if both fields match); others not at all. */
  lemma {:induction false} FilteredCounts(query: string, list: seq<AidItem>, e: AidItem)
    ensures multiset(Filtered(query, list))[e] == if Hit(query, e) then multiset(list)[e] else 0
    decreases |list|
  {
    if list != [] {
      var init := list[..|list| - 1];
      assert list == init + [list[|list| - 1]];
      FilteredCounts(query, init, e);
    }
  }

  /** An empty query matches every entry. */
  lemma {:induction false} EmptyQueryKeepsAll(list: seq<AidItem>)
    ensures Filtered("", list) == list
    decreases |list|
  {
    if list != [] {
      var e := list[|list| - 1];
      assert OccursAt(ToUpper(e.aid), "", 0);
      EmptyQueryKeepsAll(list[..|list| - 1]);
    }
  }

  /** Go's `SearchAidList`: the empty query returns the list; otherwise the entries matching the trimmed, upper-cased query. */
  method SearchAidList(query: string, list: seq<AidItem>) returns (results: seq<AidItem>)
    ensures query == "" ==> results == list
    ensures query != "" ==> results == Filtered(ToUpper(TrimSpace(query)), list)
  {
    if query == "" {
      return list;
    }
    var q := ToUpper(TrimSpace(query));
    results := [];
    for i := 0 to |list|
      invariant results == Filtered(q, list[..i])
    {
      FilteredPrefixStep(q, list, i);
      var item := list[i];
      if Contains(ToUpper(item.aid), q) {
        results := results + [item];
        continue;
      }
      if Contains(ToUpper(item.description), q) {
        results := results + [item];
        continue;
      }
    }
    assert list[..|list|] == list;
  }
}
