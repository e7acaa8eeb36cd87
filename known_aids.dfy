/**
 * The well-known application identifiers `list_applications` of
 * read_stk_applet.py selects when walking EF.DIR is not enough.
 */
module KnownAids {

  import opened Apdu
  import opened SeqUtil

  /** Every identifier of the list is a hex string. */
  predicate AllHex(aids: seq<string>) {
    forall k :: 0 <= k < |aids| ==> IsHexString(aids[k])
  }

  /** The eUICC ISD-R: `A0000005591010FFFFFFFF8900000177`. */
  function EuiccAid(): (aid: string)
    ensures IsHexString(aid)
  {
    var aid := "A0000005591010FFFFFFFF8900000177";
    assert forall i :: 0 <= i < |aid| ==> IsHexChar(aid[i]);
    aid
  }

  /** ISIM with the SIM toolkit: `A0000000871004FF86FF4989`. */
  function IsimStkAid(): (aid: string)
    ensures IsHexString(aid)
  {
    var aid := "A0000000871004FF86FF4989";
    assert forall i :: 0 <= i < |aid| ==> IsHexChar(aid[i]);
    aid
  }

  /** USIM with the SIM toolkit: `A0000000871002FF86FF4989`. */
  function UsimStkAid(): (aid: string)
    ensures IsHexString(aid)
  {
    var aid := "A0000000871002FF86FF4989";
    assert forall i :: 0 <= i < |aid| ==> IsHexChar(aid[i]);
    aid
  }

  /** USIM: `A0000000871002FF49FF0589`. */
  function UsimAid(): (aid: string)
    ensures IsHexString(aid)
  {
    var aid := "A0000000871002FF49FF0589";
    assert forall i :: 0 <= i < |aid| ==> IsHexChar(aid[i]);
    aid
  }

  /** The 3GPP registered application provider prefix: `A000000087`. */
  function ThreeGppAid(): (aid: string)
    ensures IsHexString(aid)
  {
    var aid := "A000000087";
    assert forall i :: 0 <= i < |aid| ==> IsHexChar(aid[i]);
    aid
  }

  /** SIM: `A0000000030000`. */
  function SimAid(): (aid: string)
    ensures IsHexString(aid)
  {
    var aid := "A0000000030000";
    assert forall i :: 0 <= i < |aid| ==> IsHexChar(aid[i]);
    aid
  }

  /** The identifiers `list_applications` tries by name, in the order it tries them; each can be turned into the bytes of a SELECT command. */
  function CommonAids(): (r: seq<string>)
    ensures |r| == 6 && AllHex(r)
  {
    [EuiccAid(), IsimStkAid(), UsimStkAid(), UsimAid(), ThreeGppAid(), SimAid()]
  }

  /** Selecting each identifier in turn: the (identifier, response data) pairs that answered 90 00, and the commands sent. */
  function SelectEach(card: Card, history: seq<seq<int>>, aids: seq<string>): (r: (seq<(string, seq<Byte>)>, seq<seq<int>>))
    requires AllHex(aids)
    ensures |r.0| <= |aids| && |r.1| == |aids|
    decreases |aids|
  {
    if aids == [] then ([], [])
    else
      var cmd := SelectByName(HexToBytes(aids[0]));
      var reply := card(history, cmd);
      var rest := SelectEach(card, history + [cmd], aids[1..]);
      ((if IsSuccess(reply) then [(aids[0], reply.data)] else []) + rest.0, [cmd] + rest.1)
  }

  /** The probe sends one SELECT per identifier, in order, and reports only identifiers that were tried. */
  lemma {:induction false} SelectEachShape(card: Card, history: seq<seq<int>>, aids: seq<string>)
    requires AllHex(aids)
    ensures var (found, cmds) := SelectEach(card, history, aids);
            && (forall k :: 0 <= k < |aids| ==> cmds[k] == SelectByName(HexToBytes(aids[k])))
            && (forall f :: f in found ==> f.0 in aids)
    decreases |aids|
  {
    if aids != [] {
      var cmd := SelectByName(HexToBytes(aids[0]));
      SelectEachShape(card, history + [cmd], aids[1..]);
      var (found, cmds) := SelectEach(card, history, aids);
      assert forall k :: 0 < k < |aids| ==> aids[k] == aids[1..][k - 1];
      assert forall f :: f in SelectEach(card, history + [cmd], aids[1..]).0 ==> f.0 in aids[1..];
    }
  }

  /** Selecting the first identifier, then the rest after it. */
  lemma SelectEachStep(card: Card, history: seq<seq<int>>, aids: seq<string>)
    requires aids != [] && AllHex(aids)
    ensures var cmd := SelectByName(HexToBytes(aids[0]));
            var reply := card(history, cmd);
            var rest := SelectEach(card, history + [cmd], aids[1..]);
            && SelectEach(card, history, aids).0 == (if IsSuccess(reply) then [(aids[0], reply.data)] else []) + rest.0
            && SelectEach(card, history, aids).1 == [cmd] + rest.1
  {
  }

  /** The loop over the well-known AIDs: one SELECT each, keeping those that answered 90 00. */
  method SelectCommonAids(conn: Connection, aids: seq<string>) returns (found: seq<(string, seq<Byte>)>)
    requires AllHex(aids)
    modifies conn
    ensures found == SelectEach(conn.card, old(conn.sent), aids).0
    ensures conn.sent == old(conn.sent) + SelectEach(conn.card, old(conn.sent), aids).1
  {
    ghost var h0 := conn.sent;
    ghost var goal := SelectEach(conn.card, h0, aids);
    found := [];
    ghost var cmds: seq<seq<int>> := [];
    assert aids[0..] == aids;
    for k := 0 to |aids|
      invariant conn.sent == h0 + cmds
      invariant found + SelectEach(conn.card, conn.sent, aids[k..]).0 == goal.0
      invariant cmds + SelectEach(conn.card, conn.sent, aids[k..]).1 == goal.1
    {
      ghost var before := conn.sent;
      ghost var tail := SelectEach(conn.card, before, aids[k..]);
      SelectEachStep(conn.card, before, aids[k..]);
      assert aids[k..][1..] == aids[k + 1..];
      var ok, reply := SelectApplication(conn, aids[k]);
      ghost var cmd := SelectByName(HexToBytes(aids[k]));
      ghost var next := SelectEach(conn.card, conn.sent, aids[k + 1..]);
      assert tail.1 == [cmd] + next.1;
      AppendAssoc(cmds, [cmd], next.1);
      cmds := cmds + [cmd];
      if ok {
        assert tail.0 == [(aids[k], reply.data)] + next.0;
        AppendAssoc(found, [(aids[k], reply.data)], next.0);
        found := found + [(aids[k], reply.data)];
      } else {
        assert tail.0 == next.0;
      }
    }
    assert aids[|aids|..] == [];
  }

  /** The second half of `list_applications`: SELECT each well-known AID in turn. */
  method ProbeCommonAids(conn: Connection) returns (found: seq<(string, seq<Byte>)>)
    modifies conn
    ensures found == SelectEach(conn.card, old(conn.sent), CommonAids()).0
    ensures conn.sent == old(conn.sent) + SelectEach(conn.card, old(conn.sent), CommonAids()).1
  {
    found := SelectCommonAids(conn, CommonAids());
  }
}
