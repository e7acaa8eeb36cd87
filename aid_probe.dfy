/**
 * The probe engine of aid_parser.go: `TestAid`, which points the shared
 * lpac configuration at one AID while it asks the card, and
 * `FindWorkingAid`, which tries the catalog eUICC entries first.
 *
 * The card, reached through lpac, is an oracle: `succeeds(p, aid)` says
 * whether operation `p` succeeds when lpac runs with `aid` configured.
 */
module AidProbe {

  import opened Wrappers
  import opened AidParser
  import opened SeqUtil

  /** The two lpac operations used as probes: `LpacProfileList` and `LpacChipInfo`. */
  datatype Probe = ProfileList | ChipInfo

  /** One lpac invocation, with the AID the configuration held while it ran. */
  datatype Call = Call(probe: Probe, aid: string)

  type Oracle = (Probe, string) -> bool

  /** An AID is accepted when the cheap probe or the fallback probe succeeds. */
  predicate Accepts(succeeds: Oracle, aid: string) {
    succeeds(ProfileList, aid) || succeeds(ChipInfo, aid)
  }

  /** The calls `TestAid(aid)` makes: profile list, and chip info only if profile list fails. */
  function TestTrace(succeeds: Oracle, aid: string): (t: seq<Call>)
    ensures 1 <= |t| <= 2 && t[0] == Call(ProfileList, aid)
    ensures |t| == 2 <==> !succeeds(ProfileList, aid)
    ensures |t| == 2 ==> t[1] == Call(ChipInfo, aid)
  {
    [Call(ProfileList, aid)] + if succeeds(ProfileList, aid) then [] else [Call(ChipInfo, aid)]
  }

  /** The calls made by testing each entry of `items` in turn. */
  function Trace(succeeds: Oracle, items: seq<AidItem>): (t: seq<Call>)
    ensures |items| <= |t| <= 2 * |items|
  {
    if items == [] then [] else TestTrace(succeeds, items[0].aid) + Trace(succeeds, items[1..])
  }

  lemma {:induction false} TraceAppend(succeeds: Oracle, a: seq<AidItem>, b: seq<AidItem>)
    ensures Trace(succeeds, a + b) == Trace(succeeds, a) + Trace(succeeds, b)
  {
    if a == [] {
      assert a + b == b;
    } else {
      assert (a + b)[0] == a[0];
      assert (a + b)[1..] == a[1..] + b;
      TraceAppend(succeeds, a[1..], b);
    }
  }

  lemma TraceSnoc(succeeds: Oracle, a: seq<AidItem>, x: AidItem)
    ensures Trace(succeeds, a + [x]) == Trace(succeeds, a) + TestTrace(succeeds, x.aid)
  {
    TraceAppend(succeeds, a, [x]);
    assert [x][1..] == [];
  }

  /** Probing one more entry of a list extends the trace by that entry's calls. */
  lemma TracePrefixStep(succeeds: Oracle, items: seq<AidItem>, i: nat)
    requires i < |items|
    ensures Trace(succeeds, items[..i + 1]) == Trace(succeeds, items[..i]) + TestTrace(succeeds, items[i].aid)
  {
    TraceSnoc(succeeds, items[..i], items[i]);
    assert items[..i + 1] == items[..i] + [items[i]];
  }

  /** The eUICC entries of the catalog, in catalog order. */
  function EuiccEntries(list: seq<AidItem>): seq<AidItem> {
    if list == [] then []
    else EuiccEntries(list[..|list| - 1])
         + (if list[|list| - 1].isEuicc then [list[|list| - 1]] else [])
  }

  /** The other entries of the catalog, in catalog order. */
  function OtherEntries(list: seq<AidItem>): seq<AidItem> {
    if list == [] then []
    else OtherEntries(list[..|list| - 1])
         + (if list[|list| - 1].isEuicc then [] else [list[|list| - 1]])
  }

  /** The split puts each entry on the side its flag says. */
  lemma {:induction false} KindsSorted(list: seq<AidItem>)
    ensures forall k :: 0 <= k < |EuiccEntries(list)| ==> EuiccEntries(list)[k].isEuicc
    ensures forall k :: 0 <= k < |OtherEntries(list)| ==> !OtherEntries(list)[k].isEuicc
    decreases |list|
  {
    if list != [] {
      KindsSorted(list[..|list| - 1]);
    }
  }

  /** The order in which `FindWorkingAid` probes the catalog. */
  function ProbeOrder(list: seq<AidItem>): seq<AidItem> {
    EuiccEntries(list) + OtherEntries(list)
  }

  /** The first accepted entry of `order`. */
  function FirstAccepted(succeeds: Oracle, order: seq<AidItem>): Option<AidItem> {
    if order == [] then None
    else if Accepts(succeeds, order[0].aid) then Some(order[0])
    else FirstAccepted(succeeds, order[1..])
  }

  /** The entries actually probed: all of `order` up to and including the first accepted one. */
  function Probed(succeeds: Oracle, order: seq<AidItem>): seq<AidItem> {
    if order == [] then []
    else if Accepts(succeeds, order[0].aid) then [order[0]]
    else [order[0]] + Probed(succeeds, order[1..])
  }

  /** A rejected head is skipped: the answer and the probed entries come from the rest. */
  lemma RejectedHead(succeeds: Oracle, order: seq<AidItem>)
    requires order != [] && !Accepts(succeeds, order[0].aid)
    ensures FirstAccepted(succeeds, order) == FirstAccepted(succeeds, order[1..])
    ensures Probed(succeeds, order) == [order[0]] + Probed(succeeds, order[1..])
  {
  }

  /** Skipping a prefix of rejected entries changes neither the answer nor what is probed after it. */
  lemma {:induction false} RejectedPrefix(succeeds: Oracle, order: seq<AidItem>, i: nat)
    requires i <= |order|
    requires forall j :: 0 <= j < i ==> !Accepts(succeeds, order[j].aid)
    ensures FirstAccepted(succeeds, order) == FirstAccepted(succeeds, order[i..])
    ensures Probed(succeeds, order) == order[..i] + Probed(succeeds, order[i..])
  {
    if i > 0 {
      var rest := order[1..];
      RejectedHead(succeeds, order);
      forall j | 0 <= j < i - 1
        ensures !Accepts(succeeds, rest[j].aid)
      {
        assert rest[j] == order[j + 1];
      }
      RejectedPrefix(succeeds, rest, i - 1);
      assert rest[i - 1..] == order[i..];
      assert order[..i] == [order[0]] + rest[..i - 1];
      AppendAssoc([order[0]], rest[..i - 1], Probed(succeeds, order[i..]));
    } else {
      assert order[0..] == order && order[..0] == [];
    }
  }

  /** An accepted entry after a prefix of rejected ones is the answer, and testing ends with it. */
  lemma AcceptedAt(succeeds: Oracle, order: seq<AidItem>, i: nat)
    requires i < |order| && Accepts(succeeds, order[i].aid)
    requires forall j :: 0 <= j < i ==> !Accepts(succeeds, order[j].aid)
    ensures FirstAccepted(succeeds, order) == Some(order[i])
    ensures Probed(succeeds, order) == order[..i + 1]
  {
    RejectedPrefix(succeeds, order, i);
    assert order[i..][0] == order[i];
    assert order[..i + 1] == order[..i] + [order[i]];
  }

  /** No entry before position `i` is accepted. */
  predicate RejectedUpTo(succeeds: Oracle, order: seq<AidItem>, i: nat)
    requires i <= |order|
  {
    forall j :: 0 <= j < i ==> !Accepts(succeeds, order[j].aid)
  }

  /** When every entry is rejected there is no answer and every entry is probed. */
  lemma AllRejected(succeeds: Oracle, order: seq<AidItem>)
    requires forall j :: 0 <= j < |order| ==> !Accepts(succeeds, order[j].aid)
    ensures FirstAccepted(succeeds, order) == None
    ensures Probed(succeeds, order) == order
  {
    RejectedPrefix(succeeds, order, |order|);
    assert order[..|order|] == order && order[|order|..] == [];
  }

  /** The answer for a concatenation comes from the first part when it has one, else from the second. */
  lemma {:induction false} FirstAcceptedConcat(succeeds: Oracle, a: seq<AidItem>, b: seq<AidItem>)
    ensures FirstAccepted(succeeds, a + b) ==
              if FirstAccepted(succeeds, a).Some? then FirstAccepted(succeeds, a) else FirstAccepted(succeeds, b)
  {
    if a == [] {
      assert a + b == b;
    } else if !Accepts(succeeds, a[0].aid) {
      assert (a + b)[0] == a[0];
      assert (a + b)[1..] == a[1..] + b;
      FirstAcceptedConcat(succeeds, a[1..], b);
    } else {
      assert (a + b)[0] == a[0];
    }
  }

  /** Probing a concatenation probes the first part, and the second only if nothing in the first is accepted. */
  lemma {:induction false} ProbedConcat(succeeds: Oracle, a: seq<AidItem>, b: seq<AidItem>)
    ensures Probed(succeeds, a + b) ==
              if FirstAccepted(succeeds, a).Some? then Probed(succeeds, a) else a + Probed(succeeds, b)
  {
    if a == [] {
      assert a + b == b;
    } else if !Accepts(succeeds, a[0].aid) {
      assert (a + b)[0] == a[0];
      assert (a + b)[1..] == a[1..] + b;
      ProbedConcat(succeeds, a[1..], b);
      assert a == [a[0]] + a[1..];
    } else {
      assert (a + b)[0] == a[0];
    }
  }

  /** Appending one entry to the catalog appends it to its own kind's list. */
  lemma KindsSnoc(list: seq<AidItem>, x: AidItem)
    ensures EuiccEntries(list + [x]) == EuiccEntries(list) + (if x.isEuicc then [x] else [])
    ensures OtherEntries(list + [x]) == OtherEntries(list) + (if x.isEuicc then [] else [x])
  {
    assert (list + [x])[..|list|] == list;
  }

  /** Appending one entry to the catalog puts it at the end of its own kind's part of the probe order. */
  lemma ProbeOrderSnocParts(list: seq<AidItem>, x: AidItem)
    ensures ProbeOrder(list + [x]) ==
              if x.isEuicc then (EuiccEntries(list) + [x]) + OtherEntries(list)
              else EuiccEntries(list) + (OtherEntries(list) + [x])
  {
    KindsSnoc(list, x);
  }

  /** Appending one entry to the catalog adds it once to the probe order. */
  lemma ProbeOrderSnoc(list: seq<AidItem>, x: AidItem)
    ensures multiset(ProbeOrder(list + [x])) == multiset(ProbeOrder(list)) + multiset{x}
  {
    ProbeOrderSnocParts(list, x);
    MultisetInsert(EuiccEntries(list), OtherEntries(list), x);
  }

  /** The probe order is a rearrangement of the catalog. */
  lemma {:induction false} ProbeOrderPermutes(list: seq<AidItem>)
    ensures multiset(ProbeOrder(list)) == multiset(list)
    decreases |list|
  {
    if list != [] {
      var init, x := list[..|list| - 1], list[|list| - 1];
      ProbeOrderPermutes(init);
      ProbeOrderSnoc(init, x);
      assert list == init + [x];
    }
  }

  /** Every eUICC entry is probed before any other entry. */
  lemma EuiccEntriesFirst(list: seq<AidItem>)
    ensures forall i, j :: 0 <= i < j < |ProbeOrder(list)| && ProbeOrder(list)[j].isEuicc ==>
              ProbeOrder(list)[i].isEuicc
  {
    var e, o := EuiccEntries(list), OtherEntries(list);
    KindsSorted(list);
    var order: seq<AidItem> := e + o;
    forall k | |e| <= k < |order|
      ensures !order[k].isEuicc
    {
      assert order[k] == o[k - |e|];
    }
    forall i, j | 0 <= i < j < |order| && order[j].isEuicc
      ensures order[i].isEuicc
    {
      assert order[i] == e[i];
    }
  }

  /** Probing stops at the first accepted entry, and finds nothing only if nothing is accepted. */
  lemma {:induction false} FirstAcceptedIsFirst(succeeds: Oracle, order: seq<AidItem>)
    ensures FirstAccepted(succeeds, order).None? <==>
              forall j :: 0 <= j < |order| ==> !Accepts(succeeds, order[j].aid)
    ensures FirstAccepted(succeeds, order).Some? ==>
              var x := FirstAccepted(succeeds, order).value;
              exists i :: 0 <= i < |order| && order[i] == x && Accepts(succeeds, x.aid)
                          && forall j :: 0 <= j < i ==> !Accepts(succeeds, order[j].aid)
  {
    if order != [] && !Accepts(succeeds, order[0].aid) {
      FirstAcceptedIsFirst(succeeds, order[1..]);
      if FirstAccepted(succeeds, order).Some? {
        var x := FirstAccepted(succeeds, order).value;
        var i :| 0 <= i < |order[1..]| && order[1..][i] == x && Accepts(succeeds, x.aid)
                 && forall j :: 0 <= j < i ==> !Accepts(succeeds, order[1..][j].aid);
        assert order[i + 1] == x;
        assert forall j :: 0 < j < i + 1 ==> order[j] == order[1..][j - 1];
      }
      assert forall j :: 0 < j < |order| ==> order[j] == order[1..][j - 1];
    }
  }

  /** The probed entries are a prefix of the probe order, so no entry is probed twice. */
  lemma {:induction false} ProbedIsPrefix(succeeds: Oracle, order: seq<AidItem>)
    ensures Probed(succeeds, order) <= order
    ensures FirstAccepted(succeeds, order).Some? ==>
              Probed(succeeds, order) != [] &&
              Probed(succeeds, order)[|Probed(succeeds, order)| - 1] == FirstAccepted(succeeds, order).value
    ensures FirstAccepted(succeeds, order).None? ==> Probed(succeeds, order) == order
  {
    if order != [] && !Accepts(succeeds, order[0].aid) {
      ProbedIsPrefix(succeeds, order[1..]);
      assert order == [order[0]] + order[1..];
    }
  }

  /** An entry is in the probe order exactly when it is in the catalog. */
  lemma ProbeOrderMembers(list: seq<AidItem>)
    ensures forall x :: x in ProbeOrder(list) <==> x in list
  {
    ProbeOrderPermutes(list);
    forall x
      ensures x in ProbeOrder(list) <==> x in list
    {
      assert x in ProbeOrder(list) <==> x in multiset(ProbeOrder(list));
      assert x in list <==> x in multiset(list);
    }
  }

  /** The probed entries are a sub-multiset of the catalog: no entry is probed more often than it is listed. */
  lemma ProbedFromCatalog(succeeds: Oracle, list: seq<AidItem>)
    ensures multiset(Probed(succeeds, ProbeOrder(list))) <= multiset(list)
  {
    var order := ProbeOrder(list);
    ProbeOrderPermutes(list);
    ProbedIsPrefix(succeeds, order);
    PrefixSubMultiset(Probed(succeeds, order), order);
  }

  /** `FindWorkingAid` probes each catalog entry at most once and finds nothing exactly when no entry is accepted. */
  lemma WorkingAidSummary(succeeds: Oracle, list: seq<AidItem>)
    ensures multiset(Probed(succeeds, ProbeOrder(list))) <= multiset(list)
    ensures FirstAccepted(succeeds, ProbeOrder(list)).None? <==>
              forall x :: x in list ==> !Accepts(succeeds, x.aid)
    ensures FirstAccepted(succeeds, ProbeOrder(list)).Some? ==>
              FirstAccepted(succeeds, ProbeOrder(list)).value in list
  {
    var order := ProbeOrder(list);
    ProbedFromCatalog(succeeds, list);
    ProbeOrderMembers(list);
    FirstAcceptedIsFirst(succeeds, order);
    assert (forall j :: 0 <= j < |order| ==> !Accepts(succeeds, order[j].aid)) <==>
           (forall x :: x in order ==> !Accepts(succeeds, x.aid));
  }

  /**
   * Three eUICC entries followed by two others, where only the fourth entry
   * is accepted: all three eUICC entries are probed, then the fourth, which
   * is the answer.
   */
  lemma FourthEntryScenario(succeeds: Oracle, r1: AidItem, r2: AidItem, r3: AidItem, o1: AidItem, o2: AidItem)
    requires r1.isEuicc && r2.isEuicc && r3.isEuicc && !o1.isEuicc && !o2.isEuicc
    requires !Accepts(succeeds, r1.aid) && !Accepts(succeeds, r2.aid) && !Accepts(succeeds, r3.aid)
    requires Accepts(succeeds, o1.aid)
    ensures FirstAccepted(succeeds, ProbeOrder([r1, r2, r3, o1, o2])) == Some(o1)
    ensures Probed(succeeds, ProbeOrder([r1, r2, r3, o1, o2])) == [r1, r2, r3, o1]
  {
    var list := [r1, r2, r3, o1, o2];
    assert EuiccEntries([]) == [] && OtherEntries([]) == [];
    KindsSnoc([], r1);
    assert [] + [r1] == [r1];
    KindsSnoc([r1], r2);
    assert [r1] + [r2] == [r1, r2];
    KindsSnoc([r1, r2], r3);
    assert [r1, r2] + [r3] == [r1, r2, r3];
    KindsSnoc([r1, r2, r3], o1);
    assert [r1, r2, r3] + [o1] == [r1, r2, r3, o1];
    KindsSnoc([r1, r2, r3, o1], o2);
    assert [r1, r2, r3, o1] + [o2] == list;
    assert ProbeOrder(list) == [r1, r2, r3] + [o1, o2];
    FirstAcceptedConcat(succeeds, [r1, r2, r3], [o1, o2]);
    ProbedConcat(succeeds, [r1, r2, r3], [o1, o2]);
    RejectedPrefix(succeeds, [r1, r2, r3], 3);
    assert [r1, r2, r3][3..] == [] && [r1, r2, r3][..3] == [r1, r2, r3];
  }

  /** The first loop of `FindWorkingAid`: split the catalog into eUICC and other entries. */
  method SplitByKind(list: seq<AidItem>) returns (euiccAids: seq<AidItem>, otherAids: seq<AidItem>)
    ensures euiccAids == EuiccEntries(list)
    ensures otherAids == OtherEntries(list)
  {
    euiccAids, otherAids := [], [];
    for i := 0 to |list|
      invariant euiccAids == EuiccEntries(list[..i])
      invariant otherAids == OtherEntries(list[..i])
    {
      assert list[..i + 1][..i] == list[..i];
      if list[i].isEuicc {
        euiccAids := euiccAids + [list[i]];
      } else {
        otherAids := otherAids + [list[i]];
      }
    }
    assert list[..|list|] == list;
  }

  /** The process-wide configuration (`ConfigInstance`); only the field the probes read. */
  class Config {
    var lpacAid: string

    constructor (aid: string)
      ensures lpacAid == aid
    {
      lpacAid := aid;
    }
  }

  /** The lpac tool as the probes see it: it reads the shared configuration and records each call. */
  class Lpac {
    const config: Config
    const succeeds: Oracle
    /** Every invocation so far, oldest first. */
    var calls: seq<Call>

    constructor (config: Config, succeeds: Oracle)
      ensures this.config == config && this.succeeds == succeeds && calls == []
    {
      this.config := config;
      this.succeeds := succeeds;
      calls := [];
    }

    /** `LpacProfileList`: succeeds as the card decides for the configured AID. */
    method ProfileList() returns (ok: bool)
      modifies this
      ensures calls == old(calls) + [Call(Probe.ProfileList, config.lpacAid)]
      ensures ok == succeeds(Probe.ProfileList, config.lpacAid)
    {
      ok := succeeds(Probe.ProfileList, config.lpacAid);
      calls := calls + [Call(Probe.ProfileList, config.lpacAid)];
    }

    /** `LpacChipInfo`: succeeds as the card decides for the configured AID. */
    method ChipInfo() returns (ok: bool)
      modifies this
      ensures calls == old(calls) + [Call(Probe.ChipInfo, config.lpacAid)]
      ensures ok == succeeds(Probe.ChipInfo, config.lpacAid)
    {
      ok := succeeds(Probe.ChipInfo, config.lpacAid);
      calls := calls + [Call(Probe.ChipInfo, config.lpacAid)];
    }

    /**
     * `TestAid`: with the configured AID set to `aid`, try profile list, then
     * chip info; the previous configured AID is restored on both returns.
     */
    method TestAid(aid: string) returns (ok: bool)
      modifies this, config
      ensures config.lpacAid == old(config.lpacAid)
      ensures ok == Accepts(succeeds, aid)
      ensures calls == old(calls) + TestTrace(succeeds, aid)
    {
      var originalAid := config.lpacAid;
      config.lpacAid := aid;
      var listed := ProfileList();
      if listed {
        config.lpacAid := originalAid;
        return true;
      }
      ok := ChipInfo();
      config.lpacAid := originalAid;
    }

    /** One probe loop of `FindWorkingAid`: test the entries in turn and stop at the first accepted one. */
    method TestInTurn(items: seq<AidItem>) returns (r: Option<AidItem>)
      modifies this, config
      ensures config.lpacAid == old(config.lpacAid)
      ensures r == FirstAccepted(succeeds, items)
      ensures calls == old(calls) + Trace(succeeds, Probed(succeeds, items))
    {
      for i := 0 to |items|
        invariant config.lpacAid == old(config.lpacAid)
        invariant RejectedUpTo(succeeds, items, i)
        invariant calls == old(calls) + Trace(succeeds, items[..i])
      {
        var ok := TestAid(items[i].aid);
        TracePrefixStep(succeeds, items, i);
        AppendAssoc(old(calls), Trace(succeeds, items[..i]), TestTrace(succeeds, items[i].aid));
        if ok {
          AcceptedAt(succeeds, items, i);
          return Some(items[i]);
        }
      }
      AllRejected(succeeds, items);
      assert items[..|items|] == items;
      return None;
    }

    /** `FindWorkingAid`: test the eUICC entries, then the others, and return the first accepted. */
    method FindWorkingAid(list: seq<AidItem>) returns (r: Option<AidItem>)
      modifies this, config
      ensures config.lpacAid == old(config.lpacAid)
      ensures r == FirstAccepted(succeeds, ProbeOrder(list))
      ensures calls == old(calls) + Trace(succeeds, Probed(succeeds, ProbeOrder(list)))
    {
      var euiccAids, otherAids := SplitByKind(list);
      FirstAcceptedConcat(succeeds, euiccAids, otherAids);
      ProbedConcat(succeeds, euiccAids, otherAids);
      r := TestInTurn(euiccAids);
      if r.Some? {
        return;
      }
      ProbedIsPrefix(succeeds, euiccAids);
      r := TestInTurn(otherAids);
      TraceAppend(succeeds, euiccAids, Probed(succeeds, otherAids));
      AppendAssoc(old(calls), Trace(succeeds, euiccAids), Trace(succeeds, Probed(succeeds, otherAids)));
    }
  }
}
