/**
 * The catalog maintenance tool fetch_aids.go: the line filter applied to a
 * downloaded list (`fetchAidsFromURL`) and `mergeAidFiles`, which
 * normalises the records of several catalog files, keeps one description
 * per identifier, sorts the identifiers and writes `AID: description` lines.
 */
module FetchAids {

  import opened Wrappers
  import opened StringUtil
  import opened SeqUtil
  import opened AidParser
  import opened StringOrder

  // ---------------------------------------------------------------------
  // Line filter of fetchAidsFromURL

  /** One response line as the filter sees it: trimmed, and kept unless empty or a comment. */
  function KeptLine(raw: string): (r: Option<string>)
    ensures r.Some? ==> r.value != "" && IsTrimmed(r.value) && !("#" <= r.value)
  {
    var line := TrimSpace(raw);
    if line != "" && !("#" <= line) then Some(line) else None
  }

  /** The lines the filter keeps, in response order. */
  function Kept(body: seq<string>): seq<string> {
    FilterMap(KeptLine, body)
  }

  /** The filter keeps exactly the trimmed lines that are non-empty and not comments. */
  lemma KeptExactly(body: seq<string>, line: string)
    ensures line in Kept(body) <==>
              line != "" && !("#" <= line) && exists i :: 0 <= i < |body| && TrimSpace(body[i]) == line
  {
    FilterMapMembers(KeptLine, body, line);
  }

  /** The filter keeps response order: filtering two halves and concatenating is filtering the whole. */
  lemma KeptAppend(a: seq<string>, b: seq<string>)
    ensures Kept(a + b) == Kept(a) + Kept(b)
  {
    FilterMapAppend(KeptLine, a, b);
  }

  /** An HTTP exchange as the filter sees it: no response at all, or a status code and the body lines read before any read error. */
  datatype HttpResponse = RequestFailed | Response(status: int, body: seq<string>, readFailed: bool)

  datatype FetchError = GetFailed | BadStatus(code: int) | ReadFailed

  /** `fetchAidsFromURL` once the response is in hand. */
  method FetchAidsFromResponse(resp: HttpResponse) returns (r: Result<seq<string>, FetchError>)
    ensures resp.RequestFailed? ==> r == Failure(GetFailed)
    ensures resp.Response? && resp.status != 200 ==> r == Failure(BadStatus(resp.status))
    ensures resp.Response? && resp.status == 200 && resp.readFailed ==> r == Failure(ReadFailed)
    ensures resp.Response? && resp.status == 200 && !resp.readFailed ==> r == Success(Kept(resp.body))
  {
    if resp.RequestFailed? {
      return Failure(GetFailed);
    }
    if resp.status != 200 {
      return Failure(BadStatus(resp.status));
    }
    var body := resp.body;
    var lines: seq<string> := [];
    for i := 0 to |body|
      invariant lines == Kept(body[..i])
    {
      assert body[..i + 1][..i] == body[..i];
      var line := TrimSpace(body[i]);
      if line != "" && !("#" <= line) {
        lines := lines + [line];
      }
    }
    assert body[..|body|] == body;
    if resp.readFailed {
      return Failure(ReadFailed);
    }
    return Success(lines);
  }

  // ---------------------------------------------------------------------
  // Normalisation of one record in mergeAidFiles

  /** The identifier and description of one record side pair, checked for length and parity only. */
  function MergeFields(left: string, right: string): (r: Option<(string, string)>)
    ensures r.Some? ==> var aid := r.value.0;
                        4 <= |aid| <= 32 && |aid| % 2 == 0 && IsTrimmed(r.value.1)
    ensures r.Some? <==> var aid := ToUpper(TrimSpace(RemoveSpaces(left)));
                         4 <= |aid| <= 32 && |aid| % 2 == 0
  {
    var aid := ToUpper(TrimSpace(RemoveSpaces(left)));
    var description := TrimSpace(right);
    if |aid| < 4 || |aid| > 32 || |aid| % 2 != 0 then None else Some((aid, description))
  }

  /** The body of the scan loop of `mergeAidFiles`: same skip rules and split as the loader. */
  function MergeLine(raw: string): (r: Option<(string, string)>)
    ensures r.Some? ==> 4 <= |r.value.0| <= 32 && |r.value.0| % 2 == 0 && IsTrimmed(r.value.1)
  {
    match SplitRecord(TrimSpace(raw))
    case None => None
    case Some(parts) => MergeFields(parts.0, parts.1)
  }

  /** Merge skips the lines the loader skips before normalising: blank, comment, metadata, no colon. */
  lemma MergeSkips(raw: string)
    ensures var line := TrimSpace(raw);
            (IsSkipped(line) || ':' !in line) ==> MergeLine(raw) == None
  {
    var line := TrimSpace(raw);
    if ':' !in line {
      assert NoColonBefore(line, |line|);
    }
    if IsSkipped(line) || ':' !in line {
      SplitRecordNone(line);
    }
  }

  /**
   * Merge normalises the identifier as the loader does (the two orders of
   * trimming and blank removal agree) but does not check for hex digits:
   * where the loader accepts a line, merge yields the same pair; where merge
   * accepts one, the loader accepts it exactly when the identifier is hex.
   */
  lemma MergeVersusLoad(raw: string)
    ensures ParseLine(raw).Some? ==>
              MergeLine(raw) == Some((ParseLine(raw).value.aid, ParseLine(raw).value.description))
    ensures MergeLine(raw).Some? ==> (ParseLine(raw).Some? <==> IsValidHex(MergeLine(raw).value.0))
    ensures ParseLine(raw).None? && MergeLine(raw).Some? ==> !IsValidHex(MergeLine(raw).value.0)
  {
    match SplitRecord(TrimSpace(raw))
    case None =>
    case Some(parts) =>
      MergeFieldsVersusMake(parts.0, parts.1);
  }

  /** `MergeVersusLoad` for the two sides of one record. */
  lemma MergeFieldsVersusMake(left: string, right: string)
    ensures MakeEntry(left, right).Some? ==>
              MergeFields(left, right) == Some((MakeEntry(left, right).value.aid, MakeEntry(left, right).value.description))
    ensures MergeFields(left, right).Some? ==> (MakeEntry(left, right).Some? <==> IsValidHex(MergeFields(left, right).value.0))
  {
    TrimSpaceRemoveSpacesCommute(left);
  }

  /** A line written from a well-formed catalog entry merges back to that entry's pair. */
  lemma MergeFormatRoundTrip(e: AidItem)
    requires WellFormed(e)
    ensures MergeLine(FormatLine(e.aid, e.description)) == Some((e.aid, e.description))
  {
    ParseFormatRoundTrip(e);
    MergeVersusLoad(FormatLine(e.aid, e.description));
  }

  /** A merged record whose identifier is hex is read back by the loader as the matching entry. */
  lemma MergedLineLoads(raw: string)
    requires MergeLine(raw).Some? && IsValidHex(MergeLine(raw).value.0)
    ensures var (aid, d) := MergeLine(raw).value;
            ParseLine(FormatLine(aid, d)) == Some(AidItem(aid, d, EuiccPrefix() <= aid))
  {
    var (aid, d) := MergeLine(raw).value;
    ParseFormatRoundTrip(AidItem(aid, d, EuiccPrefix() <= aid));
  }

  // ---------------------------------------------------------------------
  // Deduplication into aidMap

  /** One accepted record entered into the map: a new identifier is added; a known one takes a strictly longer description. */
  function Insert(m: map<string, string>, aid: string, description: string): (r: map<string, string>)
    ensures r.Keys == m.Keys + {aid}
    ensures forall k :: k in m && k != aid ==> r[k] == m[k]
    ensures aid !in m ==> r[aid] == description
    ensures aid in m ==> r[aid] == if |description| > |m[aid]| then description else m[aid]
  {
    if aid in m then
      if |description| > |m[aid]| then m[aid := description] else m
    else m[aid := description]
  }

  /** The map built from the accepted records, in input order. */
  function Merged(pairs: seq<(string, string)>): map<string, string> {
    if pairs == [] then map[]
    else
      var last := pairs[|pairs| - 1];
      Insert(Merged(pairs[..|pairs| - 1]), last.0, last.1)
  }

  /** The identifiers kept are exactly the identifiers of the accepted records. */
  lemma {:induction false} MergedKeys(pairs: seq<(string, string)>)
    ensures Merged(pairs).Keys == set i | 0 <= i < |pairs| :: pairs[i].0
    decreases |pairs|
  {
    if pairs != [] {
      var n := |pairs| - 1;
      MergedKeys(pairs[..n]);
      var all := set i | 0 <= i < |pairs| :: pairs[i].0;
      var before := set i | 0 <= i < n :: pairs[..n][i].0;
      assert all == before + {pairs[n].0} by {
        forall k | k in all
          ensures k in before + {pairs[n].0}
        {
          var i :| 0 <= i < |pairs| && pairs[i].0 == k;
          if i < n {
            assert pairs[..n][i] == pairs[i];
          }
        }
        forall k | k in before
          ensures k in all
        {
          var i :| 0 <= i < n && pairs[..n][i].0 == k;
          assert pairs[i] == pairs[..n][i];
        }
      }
    }
  }

  /** `d` is the first description of maximal length among the records for `aid`. */
  predicate FirstLongest(pairs: seq<(string, string)>, aid: string, d: string) {
    exists i :: 0 <= i < |pairs| && pairs[i] == (aid, d)
                && (forall j :: 0 <= j < |pairs| && pairs[j].0 == aid ==> |pairs[j].1| <= |d|)
                && (forall j :: 0 <= j < i && pairs[j].0 == aid ==> |pairs[j].1| < |d|)
  }

  /** A record for another identifier does not change which description is the first longest. */
  lemma FirstLongestOther(init: seq<(string, string)>, last: (string, string), aid: string, d: string)
    requires FirstLongest(init, aid, d) && last.0 != aid
    ensures FirstLongest(init + [last], aid, d)
  {
    var pairs := init + [last];
    var i :| 0 <= i < |init| && init[i] == (aid, d)
             && (forall j :: 0 <= j < |init| && init[j].0 == aid ==> |init[j].1| <= |d|)
             && (forall j :: 0 <= j < i && init[j].0 == aid ==> |init[j].1| < |d|);
    assert forall j :: 0 <= j < |init| ==> pairs[j] == init[j];
    assert pairs[i] == (aid, d);
  }

  /** A record for the identifier that is not longer keeps the description already chosen. */
  lemma FirstLongestNotLonger(init: seq<(string, string)>, last: (string, string), aid: string, d: string)
    requires FirstLongest(init, aid, d) && last.0 == aid && |last.1| <= |d|
    ensures FirstLongest(init + [last], aid, d)
  {
    var pairs := init + [last];
    var i :| 0 <= i < |init| && init[i] == (aid, d)
             && (forall j :: 0 <= j < |init| && init[j].0 == aid ==> |init[j].1| <= |d|)
             && (forall j :: 0 <= j < i && init[j].0 == aid ==> |init[j].1| < |d|);
    assert forall j :: 0 <= j < |init| ==> pairs[j] == init[j];
    assert pairs[i] == (aid, d);
  }

  /** A strictly longer record for the identifier becomes the first longest description. */
  lemma FirstLongestLonger(init: seq<(string, string)>, last: (string, string), aid: string, d: string)
    requires FirstLongest(init, aid, d) && last.0 == aid && |last.1| > |d|
    ensures FirstLongest(init + [last], aid, last.1)
  {
    var pairs := init + [last];
    assert forall j :: 0 <= j < |init| ==> pairs[j] == init[j];
    assert pairs[|init|] == (aid, last.1);
  }

  /** The first record for an identifier is its first longest description so far. */
  lemma FirstLongestFresh(init: seq<(string, string)>, last: (string, string))
    requires forall j :: 0 <= j < |init| ==> init[j].0 != last.0
    ensures FirstLongest(init + [last], last.0, last.1)
  {
    var pairs := init + [last];
    assert forall j :: 0 <= j < |init| ==> pairs[j] == init[j];
    assert pairs[|init|] == last;
  }

  /** Replacing only by strictly longer descriptions keeps the first description of maximal length. */
  lemma {:induction false} MergedValue(pairs: seq<(string, string)>, aid: string)
    requires aid in Merged(pairs)
    ensures FirstLongest(pairs, aid, Merged(pairs)[aid])
    decreases |pairs|
  {
    var n := |pairs| - 1;
    var init, last := pairs[..n], pairs[n];
    var m0 := Merged(init);
    assert pairs == init + [last];
    if last.0 != aid {
      MergedValue(init, aid);
      FirstLongestOther(init, last, aid, m0[aid]);
    } else if aid !in m0 {
      MergedKeys(init);
      forall j | 0 <= j < n
        ensures init[j].0 != aid
      {
        assert init[j].0 in (set i | 0 <= i < |init| :: init[i].0);
      }
      FirstLongestFresh(init, last);
    } else if |last.1| > |m0[aid]| {
      MergedValue(init, aid);
      FirstLongestLonger(init, last, aid, m0[aid]);
    } else {
      MergedValue(init, aid);
      FirstLongestNotLonger(init, last, aid, m0[aid]);
    }
  }

  /** One more accepted record changes the map by `Insert`. */
  lemma MergedSnoc(pairs: seq<(string, string)>, p: (string, string))
    ensures Merged(pairs + [p]) == Insert(Merged(pairs), p.0, p.1)
  {
    assert (pairs + [p])[..|pairs|] == pairs;
  }

  /** One input path: a file that cannot be opened (skipped with a warning), or the lines read from it. */
  datatype InputFile = Unopenable | Opened(lines: seq<string>)

  /** All lines of the files that open, in input order. */
  function AllLines(files: seq<InputFile>): seq<string> {
    if files == [] then []
    else
      var last := files[|files| - 1];
      AllLines(files[..|files| - 1]) + (if last.Opened? then last.lines else [])
  }

  /** The records of a sequence of lines that survive normalisation, in line order. */
  function Records(lines: seq<string>): seq<(string, string)> {
    FilterMap(MergeLine, lines)
  }

  lemma RecordsAppend(a: seq<string>, b: seq<string>)
    ensures Records(a + b) == Records(a) + Records(b)
  {
    FilterMapAppend(MergeLine, a, b);
  }

  /** Scanning one more line adds its record, if it has one, at the end. */
  lemma RecordsPrefixStep(lines: seq<string>, i: nat)
    requires i < |lines|
    ensures Records(lines[..i + 1]) == Records(lines[..i]) + OptionToSeq(MergeLine(lines[i]))
  {
    PrefixSnoc(lines, i);
    FilterMapSnoc(MergeLine, lines[..i], lines[i]);
  }

  /** The records of all input files that survive normalisation, in input order. */
  function Accepted(files: seq<InputFile>): seq<(string, string)> {
    Records(AllLines(files))
  }

  /** The final `aidMap`. */
  function MergedMap(files: seq<InputFile>): map<string, string> {
    Merged(Accepted(files))
  }

  // ---------------------------------------------------------------------
  // Output

  /** The `%s: %s` lines for the given identifiers, in their order. */
  function Emit(keys: seq<string>, m: map<string, string>): (r: seq<string>)
    requires forall k :: k in keys ==> k in m
    ensures |r| == |keys|
    ensures forall i :: 0 <= i < |keys| ==> r[i] == FormatLine(keys[i], m[keys[i]])
  {
    if keys == [] then []
    else Emit(keys[..|keys| - 1], m) + [FormatLine(keys[|keys| - 1], m[keys[|keys| - 1]])]
  }

  /** Everything `mergeAidFiles` writes for a map: one line per identifier, in ascending order. */
  ghost function OutputLines(m: map<string, string>): seq<string> {
    SortedKeysMembers(m.Keys);
    Emit(SortedKeys(m.Keys), m)
  }

  /** The output has one line per identifier, and the identifiers appear in strictly ascending order. */
  lemma OutputShape(m: map<string, string>)
    ensures |OutputLines(m)| == |m|
    ensures var keys := SortedKeys(m.Keys);
            && StrictlySorted(keys)
            && (forall k :: k in keys <==> k in m)
            && forall i :: 0 <= i < |keys| ==> OutputLines(m)[i] == FormatLine(keys[i], m[keys[i]])
  {
    SortedKeysSpec(m.Keys);
  }

  datatype MergeError = CreateFailed

  /** The result of a merge: the lines written and the count reported. */
  datatype MergeOutput = MergeOutput(lines: seq<string>, count: nat)

  /** The scan loop over one opened file: enter each accepted record into the map. */
  method ScanLines(m0: map<string, string>, ghost pairs0: seq<(string, string)>, lines: seq<string>)
    returns (aidMap: map<string, string>, ghost pairs: seq<(string, string)>)
    requires m0 == Merged(pairs0)
    ensures pairs == pairs0 + Records(lines)
    ensures aidMap == Merged(pairs)
  {
    aidMap, pairs := m0, pairs0;
    for i := 0 to |lines|
      invariant pairs == pairs0 + Records(lines[..i])
      invariant aidMap == Merged(pairs)
    {
      RecordsPrefixStep(lines, i);
      var parsed := MergeLine(lines[i]);
      if parsed.Some? {
        MergedSnoc(pairs, parsed.value);
        var (aid, description) := parsed.value;
        if aid in aidMap {
          if |description| > |aidMap[aid]| {
            aidMap := aidMap[aid := description];
          }
        } else {
          aidMap := aidMap[aid := description];
        }
        assert OptionToSeq(parsed) == [parsed.value];
        AppendAssoc(pairs0, Records(lines[..i]), [parsed.value]);
        pairs := pairs + [parsed.value];
      } else {
        assert Records(lines[..i]) + OptionToSeq(parsed) == Records(lines[..i]);
      }
    }
    assert lines[..|lines|] == lines;
  }

  /** The loop over the input paths of `mergeAidFiles`: unopenable files are skipped. */
  method MergeInputs(files: seq<InputFile>) returns (aidMap: map<string, string>)
    ensures aidMap == MergedMap(files)
  {
    aidMap := map[];
    ghost var pairs: seq<(string, string)> := [];
    for f := 0 to |files|
      invariant pairs == Accepted(files[..f])
      invariant aidMap == Merged(pairs)
    {
      assert files[..f + 1][..f] == files[..f];
      ghost var before := AllLines(files[..f]);
      if files[f].Opened? {
        var lines := files[f].lines;
        assert AllLines(files[..f + 1]) == before + lines;
        RecordsAppend(before, lines);
        assert Accepted(files[..f + 1]) == Accepted(files[..f]) + Records(lines);
        aidMap, pairs := ScanLines(aidMap, pairs, lines);
      } else {
        assert AllLines(files[..f + 1]) == before + [];
        assert before + [] == before;
      }
    }
    assert files[..|files|] == files;
  }

  /** The key-collection loop of `mergeAidFiles`: every identifier once, in the map's (unspecified) iteration order. */
  method CollectKeys(aidMap: map<string, string>) returns (sortedAids: seq<string>)
    ensures forall k :: k in sortedAids <==> k in aidMap
    ensures Distinct(sortedAids)
  {
    sortedAids := [];
    var remaining := aidMap.Keys;
    while remaining != {}
      invariant forall k :: k in aidMap <==> k in sortedAids || k in remaining
      invariant forall k :: k in sortedAids ==> k !in remaining
      invariant Distinct(sortedAids)
      decreases |remaining|
    {
      var aid :| aid in remaining;
      sortedAids := sortedAids + [aid];
      remaining := remaining - {aid};
    }
  }

  /** The write loop of `mergeAidFiles`: one `AID: description` line per identifier. */
  method WriteLines(keys: seq<string>, aidMap: map<string, string>) returns (lines: seq<string>)
    requires forall k :: k in keys ==> k in aidMap
    ensures lines == Emit(keys, aidMap)
  {
    lines := [];
    for i := 0 to |keys|
      invariant lines == Emit(keys[..i], aidMap)
    {
      assert keys[..i + 1][..i] == keys[..i];
      lines := lines + [FormatLine(keys[i], aidMap[keys[i]])];
    }
    assert keys[..|keys|] == keys;
  }

  /**
   * `mergeAidFiles`: merge the inputs, fail if the output cannot be created,
   * otherwise write the sorted records and report how many there are.
   */
  method MergeAidFiles(files: seq<InputFile>, canCreateOutput: bool) returns (r: Result<MergeOutput, MergeError>)
    ensures !canCreateOutput ==> r == Failure(CreateFailed)
    ensures canCreateOutput ==>
              r == Success(MergeOutput(OutputLines(MergedMap(files)), |MergedMap(files)|))
  {
    var aidMap := MergeInputs(files);
    if !canCreateOutput {
      return Failure(CreateFailed);
    }
    var collected := CollectKeys(aidMap);
    var a := new string[|collected|](i requires 0 <= i < |collected| => collected[i]);
    assert a[..] == collected;
    ExchangeSort(a);
    var sortedAids := a[..];
    PermutationKeepsDistinct(collected, sortedAids);
    SortedDistinctIsStrict(sortedAids);
    assert forall k :: k in sortedAids <==> k in multiset(sortedAids);
    assert forall k :: k in collected <==> k in multiset(collected);
    StrictlySortedUnique(sortedAids, aidMap.Keys);
    var lines := WriteLines(sortedAids, aidMap);
    SortedKeysSpec(aidMap.Keys);
    return Success(MergeOutput(lines, |aidMap|));
  }
}
