/**
 * The ISD-R identifiers that config.go names, used as concrete inputs for
 * the catalog operations.
 */
module AidExamples {

  import opened Wrappers
  import opened StringUtil
  import opened AidParser

  const AidDefault: string := "A0000005591010FFFFFFFF8900000100"
  const Aid5ber: string := "A0000005591010FFFFFFFF8900050500"
  const AidEsimMe: string := "A0000005591010000000008900000300"
  const AidXesim: string := "A0000005591010FFFFFFFF8900000177"

  /** The four identifiers of config.go, the default first. */
  function ConfigAids(): (r: seq<string>)
    ensures |r| == 4 && r[0] == AidDefault
  {
    [AidDefault, Aid5ber, AidEsimMe, AidXesim]
  }

  /** A full ISD-R identifier: 32 upper-case hex digits that start with the eUICC prefix. */
  predicate IsIsdR(aid: string) {
    IsValidHex(aid) && |aid| == 32 && EuiccPrefix() <= aid
  }

  /** Every identifier of config.go is a full ISD-R identifier. */
  lemma ConfigAidsAreIsdR(k: nat)
    requires k < |ConfigAids()|
    ensures IsIsdR(ConfigAids()[k])
  {
    var aid := ConfigAids()[k];
    assert forall i :: 0 <= i < |aid| ==> IsHexDigit(aid[i]);
    assert aid[..10] == EuiccPrefix();
  }

  /** The catalog line of a full ISD-R identifier parses to an eUICC entry. */
  lemma IsdRRoundTrip(aid: string, desc: string)
    requires IsIsdR(aid) && IsTrimmed(desc)
    ensures ParseLine(FormatLine(aid, desc)) == Some(AidItem(aid, desc, true))
  {
    ParseFormatRoundTrip(AidItem(aid, desc, true));
  }

  /** The catalog line for each identifier of config.go parses to an eUICC entry. */
  lemma ConfigLineParses(k: nat, desc: string)
    requires k < |ConfigAids()| && IsTrimmed(desc)
    ensures var aid := ConfigAids()[k];
            ParseLine(FormatLine(aid, desc)) == Some(AidItem(aid, desc, true))
  {
    ConfigAidsAreIsdR(k);
    IsdRRoundTrip(ConfigAids()[k], desc);
  }

  /** Each identifier of config.go resolves to a catalog entry holding just the 10-digit prefix. */
  lemma ConfigResolvesToPrefixEntry(k: nat, desc: string)
    requires k < |ConfigAids()|
    ensures var base := AidItem(EuiccPrefix(), desc, true);
            FindBestAid(ConfigAids()[k], [base]) == Some(base)
  {
    ConfigAidsAreIsdR(k);
    PrefixEntryResolves(ConfigAids()[k], desc);
  }

  /** An exact entry wins over an earlier prefix entry for each identifier of config.go. */
  lemma ExactBeatsEarlierPrefix(k: nat, d1: string, d2: string)
    requires k < |ConfigAids()|
    ensures var aid := ConfigAids()[k];
            var base := AidItem(EuiccPrefix(), d1, true);
            var exact := AidItem(aid, d2, true);
            FindBestAid(aid, [base, exact]) == Some(exact)
  {
    var aid := ConfigAids()[k];
    ConfigAidsAreIsdR(k);
    HexIsBlankFree(aid);
    HexIsUpper(aid);
    var list := [AidItem(EuiccPrefix(), d1, true), AidItem(aid, d2, true)];
    assert !Matches(Exact, aid, list[0]) && Matches(Exact, aid, list[1]);
  }
}
