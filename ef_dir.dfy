/**
 * `list_applications` of read_stk_applet.py: the walk over the EF.DIR
 * records (tag 0x61, one length byte, the value) that reports the first
 * five bytes of every application identifier, and the SELECT probe of the
 * well-known AIDs.
 */
module EfDir {

  import opened Wrappers
  import opened Apdu
  import SeqUtil

  /** Tag of an application template record in EF.DIR. */
  function AppTemplateTag(): int { 0x61 }

  function Min(a: int, b: int): int {
    if a <= b then a else b
  }

  /**
   * The walk as written, on the bytes from the cursor on: a record is read
   * when `i + 1 + length <= len(data)` and its value is sliced with
   * Python's clamping, so a record one byte short is still reported.
   */
  function WalkAsWritten(d: seq<Byte>): seq<seq<Byte>>
    decreases |d|
  {
    if |d| < 2 then []
    else
      var length := d[1];
      RecordAsWritten(d) + if 2 + length <= |d| then WalkAsWritten(d[2 + length..]) else []
  }

  /** What the loop body as written reports for the record at the head of `d`. */
  function RecordAsWritten(d: seq<Byte>): seq<seq<Byte>>
    requires 2 <= |d|
  {
    var tag, length := d[0], d[1];
    if tag == AppTemplateTag() && 1 + length <= |d| then
      var value := d[2..Min(2 + length, |d|)];
      if |value| >= 5 then [value[..5]] else []
    else []
  }

  /** The walk with the bounds check the value slice needs: only complete records are read. */
  function Walk(d: seq<Byte>): seq<seq<Byte>>
    decreases |d|
  {
    if |d| < 2 then []
    else
      var tag, length := d[0], d[1];
      var here := if tag == AppTemplateTag() && 2 + length <= |d| && length >= 5 then [d[2..7]] else [];
      here + if 2 + length <= |d| then Walk(d[2 + length..]) else []
  }

  /** A record that claims six value bytes but holds five is reported as written, and not by the corrected walk. */
  lemma TruncatedRecordReported()
    ensures WalkAsWritten([0x61, 6, 1, 2, 3, 4, 5]) == [[1, 2, 3, 4, 5]]
    ensures Walk([0x61, 6, 1, 2, 3, 4, 5]) == []
  {
    var d: seq<Byte> := [0x61, 6, 1, 2, 3, 4, 5];
    assert d[2..Min(8, 7)] == [1, 2, 3, 4, 5];
    assert [1, 2, 3, 4, 5][..5] == [1, 2, 3, 4, 5];
  }

  /** A record in EF.DIR: at position `p`, tag 0x61, at least five value bytes, all of them present. */
  predicate CompleteRecordAt(d: seq<Byte>, p: nat) {
    p + 1 < |d| && d[p] == AppTemplateTag() && d[p + 1] >= 5 && p + 2 + d[p + 1] <= |d|
  }

  /**
   * The cursor positions both walks visit: 0, then for a record at a visited
   * position the position its length byte points to, while a record header
   * still fits.
   */
  function Cursors(d: seq<Byte>): set<nat>
    decreases |d|
  {
    if |d| < 2 then {}
    else
      var k := 2 + d[1] as int;
      {0} + if k <= |d| then set q | q in Cursors(d[k..]) :: q + k else {}
  }

  /** A cursor of the rest of the data after the record at the head is a cursor of the whole. */
  lemma ShiftCursor(d: seq<Byte>, p: nat)
    requires 2 <= |d| && 2 + d[1] <= |d| && p in Cursors(d[2 + d[1]..])
    ensures 2 + d[1] + p in Cursors(d)
  {
  }

  /** A complete record found in a suffix is a complete record of the whole. */
  lemma ShiftRecord(d: seq<Byte>, k: nat, p: nat)
    requires k <= |d| && CompleteRecordAt(d[k..], p)
    ensures CompleteRecordAt(d, k + p) && d[k..][p + 2..p + 7] == d[k + p + 2..k + p + 7]
  {
  }

  /** One step of the walk over a suffix. */
  lemma WalkStep(d: seq<Byte>)
    requires 2 <= |d|
    ensures Walk(d) == (if d[0] == AppTemplateTag() && 2 + d[1] <= |d| && d[1] >= 5 then [d[2..7]] else [])
                       + (if 2 + d[1] <= |d| then Walk(d[2 + d[1]..]) else [])
  {
  }

  /** Every reported identifier is the first five value bytes of a complete application record at a cursor of the walk. */
  lemma {:induction false} WalkSound(d: seq<Byte>, aid: seq<Byte>)
    requires aid in Walk(d)
    ensures exists p: nat :: p in Cursors(d) && CompleteRecordAt(d, p) && aid == d[p + 2..p + 7]
    decreases |d|
  {
    WalkStep(d);
    var k := 2 + d[1] as int;
    if d[0] == AppTemplateTag() && k <= |d| && d[1] >= 5 && aid == d[2..7] {
      assert 0 in Cursors(d) && CompleteRecordAt(d, 0);
    } else {
      assert k <= |d| && aid in Walk(d[k..]);
      WalkSound(d[k..], aid);
      var p: nat :| p in Cursors(d[k..]) && CompleteRecordAt(d[k..], p) && aid == d[k..][p + 2..p + 7];
      ShiftRecord(d, k, p);
      ShiftCursor(d, p);
      assert k + p in Cursors(d) && CompleteRecordAt(d, k + p) && aid == d[k + p + 2..k + p + 7];
    }
  }

  /**
   * A record as the script's guard admits it: at position `p`, tag 0x61,
   * `p + 1 + length` within the data, at least five value bytes claimed and
   * the first five of them present.
   */
  predicate AdmittedRecordAt(d: seq<Byte>, p: nat) {
    p + 1 < |d| && d[p] == AppTemplateTag() && p + 1 + d[p + 1] <= |d| && d[p + 1] >= 5 && p + 7 <= |d|
  }

  /** An admitted record found in a suffix is an admitted record of the whole. */
  lemma ShiftAdmitted(d: seq<Byte>, k: nat, p: nat)
    requires k <= |d| && AdmittedRecordAt(d[k..], p)
    ensures AdmittedRecordAt(d, k + p) && d[k..][p + 2..p + 7] == d[k + p + 2..k + p + 7]
  {
  }

  /** One step of the walk as written over a suffix. */
  lemma WalkAsWrittenStep(d: seq<Byte>)
    requires 2 <= |d|
    ensures WalkAsWritten(d) ==
              (if d[0] == AppTemplateTag() && 1 + d[1] <= |d| && d[1] >= 5 && 7 <= |d| then [d[2..7]] else [])
              + (if 2 + d[1] <= |d| then WalkAsWritten(d[2 + d[1]..]) else [])
  {
    RecordAsWrittenHead(d);
  }

  /** The record as written is the first five value bytes of an admitted record, or nothing. */
  lemma RecordAsWrittenHead(d: seq<Byte>)
    requires 2 <= |d|
    ensures RecordAsWritten(d) ==
              if d[0] == AppTemplateTag() && 1 + d[1] <= |d| && d[1] >= 5 && 7 <= |d| then [d[2..7]] else []
  {
    if d[0] == AppTemplateTag() && 1 + d[1] <= |d| {
      var value := d[2..Min(2 + d[1] as int, |d|)];
      if |value| >= 5 {
        assert value[..5] == d[2..7];
      }
    }
  }

  /**
   * Every identifier the walk as written reports is the first five value
   * bytes of a record its guard admits at a cursor of the walk; the record
   * need not be complete.
   */
  lemma {:induction false} WalkAsWrittenSound(d: seq<Byte>, aid: seq<Byte>)
    requires aid in WalkAsWritten(d)
    ensures exists p: nat :: p in Cursors(d) && AdmittedRecordAt(d, p) && aid == d[p + 2..p + 7]
    decreases |d|
  {
    WalkAsWrittenStep(d);
    var k := 2 + d[1] as int;
    if d[0] == AppTemplateTag() && 1 + d[1] <= |d| && d[1] >= 5 && 7 <= |d| && aid == d[2..7] {
      assert 0 in Cursors(d) && AdmittedRecordAt(d, 0);
    } else {
      assert k <= |d| && aid in WalkAsWritten(d[k..]);
      WalkAsWrittenSound(d[k..], aid);
      var p: nat :| p in Cursors(d[k..]) && AdmittedRecordAt(d[k..], p) && aid == d[k..][p + 2..p + 7];
      ShiftAdmitted(d, k, p);
      ShiftCursor(d, p);
      assert k + p in Cursors(d) && AdmittedRecordAt(d, k + p) && aid == d[k + p + 2..k + p + 7];
    }
  }

  /** The EF.DIR bytes for a list of application identifiers, each at least five bytes long. */
  function EncodeDir(apps: seq<seq<Byte>>): seq<Byte>
    requires forall k :: 0 <= k < |apps| ==> 5 <= |apps[k]| <= 255
  {
    if apps == [] then []
    else [AppTemplateTag() as Byte, |apps[0]| as Byte] + apps[0] + EncodeDir(apps[1..])
  }

  /** The first five bytes of each identifier. */
  function Heads(apps: seq<seq<Byte>>): (r: seq<seq<Byte>>)
    requires forall k :: 0 <= k < |apps| ==> 5 <= |apps[k]|
    ensures |r| == |apps|
  {
    if apps == [] then [] else [apps[0][..5]] + Heads(apps[1..])
  }

  /** The walk reads back the five-byte heads of an encoded directory. */
  lemma {:induction false} WalkEncodeDir(apps: seq<seq<Byte>>)
    requires forall k :: 0 <= k < |apps| ==> 5 <= |apps[k]| <= 255
    ensures Walk(EncodeDir(apps)) == Heads(apps)
  {
    if apps != [] {
      var d := EncodeDir(apps);
      var a := apps[0];
      assert d[0] == AppTemplateTag() && d[1] == |a|;
      assert d[2..7] == a[..5];
      assert d[2 + |a|..] == EncodeDir(apps[1..]);
      WalkEncodeDir(apps[1..]);
    }
  }

  /** On a directory made of complete records the walk as written agrees with the corrected walk. */
  lemma {:induction false} AsWrittenAgreesOnEncodings(apps: seq<seq<Byte>>)
    requires forall k :: 0 <= k < |apps| ==> 5 <= |apps[k]| <= 255
    ensures WalkAsWritten(EncodeDir(apps)) == Walk(EncodeDir(apps))
  {
    if apps != [] {
      var d := EncodeDir(apps);
      var a := apps[0];
      assert d[0] == AppTemplateTag() && d[1] == |a|;
      assert d[2..Min(2 + |a|, |d|)] == a;
      assert d[2..7] == a[..5];
      assert d[2 + |a|..] == EncodeDir(apps[1..]);
      AsWrittenAgreesOnEncodings(apps[1..]);
    }
  }

  /** The identifier the record at the cursor `i` contributes, if it is a complete application record. */
  function RecordAt(data: seq<Byte>, i: nat): seq<seq<Byte>>
    requires i + 1 < |data|
  {
    if data[i] == AppTemplateTag() && i + 2 + data[i + 1] <= |data| && data[i + 1] >= 5
    then [data[i + 2..i + 7]] else []
  }

  /** The corrected walk stated on the cursor of the loop instead of on suffixes. */
  function WalkFrom(data: seq<Byte>, i: nat): seq<seq<Byte>>
    decreases |data| - i
  {
    if i + 1 >= |data| then [] else RecordAt(data, i) + WalkFrom(data, i + 2 + data[i + 1])
  }

  /** One step of the cursor walk. */
  lemma WalkFromStep(data: seq<Byte>, i: nat)
    requires i + 1 < |data|
    ensures WalkFrom(data, i) == RecordAt(data, i) + WalkFrom(data, i + 2 + data[i + 1])
  {
  }

  /** The record at the cursor is the record at the head of the suffix that starts there. */
  lemma RecordAtHead(data: seq<Byte>, i: nat)
    requires i + 1 < |data|
    ensures var d := data[i..];
            RecordAt(data, i) == (if d[0] == AppTemplateTag() && 2 + d[1] <= |d| && d[1] >= 5 then [d[2..7]] else [])
  {
    var d := data[i..];
    if d[0] == AppTemplateTag() && 2 + d[1] <= |d| && d[1] >= 5 {
      assert d[2..7] == data[i + 2..i + 7];
    }
  }

  /** Walking from the cursor `i` is walking the suffix that starts there. */
  lemma {:induction false} WalkFromIsWalk(data: seq<Byte>, i: nat)
    requires i <= |data|
    ensures WalkFrom(data, i) == Walk(data[i..])
    decreases |data| - i
  {
    if i + 1 < |data| {
      var d := data[i..];
      var next := i + 2 + data[i + 1];
      WalkStep(d);
      RecordAtHead(data, i);
      WalkFromStep(data, i);
      if next <= |data| {
        assert d[2 + d[1]..] == data[next..];
        WalkFromIsWalk(data, next);
      }
    }
  }

  /** The body of the EF.DIR loop for the record at the cursor `i`, with the corrected bounds check. */
  method ReadRecord(data: seq<Byte>, i: nat) returns (found: seq<seq<Byte>>)
    requires i + 1 < |data|
    ensures found == RecordAt(data, i)
  {
    found := [];
    var tag := data[i];
    var length := data[i + 1];
    if tag == AppTemplateTag() && i + 2 + length <= |data| {
      var aidData := data[i + 2..i + 2 + length];
      if |aidData| >= 5 {
        assert aidData[..5] == data[i + 2..i + 7];
        found := [aidData[..5]];
      }
    }
  }

  /**
   * The EF.DIR loop of `list_applications`, with the corrected bounds check:
   * it returns the corrected walk, which differs from what the script reports
   * only on a record that is shorter than its length byte claims.
   */
  method ParseEfDir(data: seq<Byte>) returns (aids: seq<seq<Byte>>)
    ensures aids == Walk(data)
  {
    aids := [];
    var i: nat := 0;
    while i < |data|
      invariant aids + WalkFrom(data, i) == WalkFrom(data, 0)
      decreases |data| - i
    {
      if i + 1 < |data| {
        var found := ReadRecord(data, i);
        SeqUtil.AppendAssoc(aids, found, WalkFrom(data, i + 2 + data[i + 1]));
        aids := aids + found;
        i := i + 2 + data[i + 1];
      } else {
        break;
      }
    }
    WalkFromIsWalk(data, 0);
    assert data[0..] == data;
  }

  /** What the EF.DIR step reports from the outcome of reading file 2F00. */
  function DirAids(read: Option<seq<Byte>>): seq<seq<Byte>> {
    if read.Some? && read.value != [] then Walk(read.value) else []
  }

  /** The first half of `list_applications`: read EF.DIR (2F00) and walk it when it is not empty. */
  method ReadEfDir(conn: Connection) returns (dirAids: seq<seq<Byte>>)
    modifies conn
    ensures dirAids == DirAids(ReadFileRun(conn.card, old(conn.sent), 0x2F00).0)
    ensures conn.sent == old(conn.sent) + ReadFileRun(conn.card, old(conn.sent), 0x2F00).1
  {
    var data := ReadFile(conn, 0x2F00);
    dirAids := [];
    if data.Some? && data.value != [] {
      dirAids := ParseEfDir(data.value);
    }
  }
}
