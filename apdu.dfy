/**
 * The command builders and card exchanges of read_stk_applet.py: SELECT by
 * application name and by file identifier, READ BINARY (sections 7.1.1 and
 * 7.2.3 of ISO/IEC 7816-4:2005) and the `read_file` retry on status 6C.
 *
 * The card reader is an oracle: `card(history, cmd)` is the reply to `cmd`
 * after the commands in `history` were sent, so a reply may depend on what
 * was selected before.
 */
module Apdu {

  import opened Wrappers

  /** A byte as Python holds it: an int in 0..255. */
  type Byte = x: int | 0 <= x < 256

  /** A card reply: response data and the two status bytes. */
  datatype Reply = Reply(data: seq<Byte>, sw1: Byte, sw2: Byte)

  /** Status 90 00, normal completion. */
  predicate IsSuccess(r: Reply) {
    r.sw1 == 0x90 && r.sw2 == 0x00
  }

  /** Every element of a command is a byte value. */
  predicate AllBytes(cmd: seq<int>) {
    forall i :: 0 <= i < |cmd| ==> 0 <= cmd[i] < 256
  }

  // ---------------------------------------------------------------------
  // Hex text (smartcard.util.toBytes on even-length hex without blanks)

  predicate IsHexChar(c: char) {
    ('0' <= c <= '9') || ('A' <= c <= 'F') || ('a' <= c <= 'f')
  }

  function HexValue(c: char): (v: int)
    requires IsHexChar(c)
    ensures 0 <= v < 16
  {
    if '0' <= c <= '9' then c as int - '0' as int
    else if 'A' <= c <= 'F' then c as int - 'A' as int + 10
    else c as int - 'a' as int + 10
  }

  predicate IsHexString(s: string) {
    |s| % 2 == 0 && forall i :: 0 <= i < |s| ==> IsHexChar(s[i])
  }

  /** `toBytes`: each pair of hex digits is one byte, high digit first. */
  function HexToBytes(s: string): (b: seq<Byte>)
    requires IsHexString(s)
    ensures |b| == |s| / 2
  {
    seq(|s| / 2, i requires 0 <= i < |s| / 2 => 16 * HexValue(s[2 * i]) + HexValue(s[2 * i + 1]))
  }

  /** The upper-case hex digit of a value 0..15. */
  function HexDigit(v: int): (c: char)
    requires 0 <= v < 16
    ensures IsHexChar(c) && HexValue(c) == v
  {
    if v < 10 then ('0' as int + v) as char else ('A' as int + v - 10) as char
  }

  /** Bytes as upper-case hex text without separators (`toHexString` without the blanks). */
  function BytesToHex(b: seq<Byte>): (s: string)
    ensures IsHexString(s) && |s| == 2 * |b|
  {
    seq(2 * |b|, j requires 0 <= j < 2 * |b| =>
      if j % 2 == 0 then HexDigit(b[j / 2] / 16) else HexDigit(b[j / 2] % 16))
  }

  /** Halving an even or odd position. */
  lemma HalfOfPair(i: nat)
    ensures (2 * i) % 2 == 0 && (2 * i) / 2 == i
    ensures (2 * i + 1) % 2 == 1 && (2 * i + 1) / 2 == i
  {
  }

  /** A byte is its high digit times 16 plus its low digit. */
  lemma ByteDigits(x: Byte)
    ensures 16 * (x / 16) + x % 16 == x
  {
  }

  /** The two hex digits printed for byte `i` read back as that byte. */
  lemma HexPairAt(b: seq<Byte>, i: nat)
    requires i < |b|
    ensures HexToBytes(BytesToHex(b))[i] == b[i]
  {
    var s := BytesToHex(b);
    HalfOfPair(i);
    assert s[2 * i] == HexDigit(b[i] / 16);
    assert s[2 * i + 1] == HexDigit(b[i] % 16);
    ByteDigits(b[i]);
  }

  /** `toBytes` undoes hex printing. */
  lemma HexRoundTrip(b: seq<Byte>)
    ensures HexToBytes(BytesToHex(b)) == b
  {
    forall i | 0 <= i < |b|
      ensures HexToBytes(BytesToHex(b))[i] == b[i]
    {
      HexPairAt(b, i);
    }
  }

  // ---------------------------------------------------------------------
  // Command builders

  /** `select_cmd` of `select_application`: `00 A4 04 00 Lc` and the name. */
  function SelectByName(aid: seq<Byte>): seq<int> {
    [0x00, 0xA4, 0x04, 0x00, |aid|] + aid
  }

  /** The name carried by a SELECT-by-name command whose Lc matches its data. */
  function SelectedName(cmd: seq<int>): (r: Option<seq<int>>)
    ensures r.Some? ==> |r.value| == |cmd| - 5
  {
    if |cmd| >= 5 && cmd[..4] == [0x00, 0xA4, 0x04, 0x00] && cmd[4] == |cmd| - 5 then Some(cmd[5..])
    else None
  }

  /** SELECT by name round-trips, and is a valid byte string for names up to 255 bytes. */
  lemma SelectByNameRoundTrip(aid: seq<Byte>)
    ensures SelectedName(SelectByName(aid)) == Some(aid)
    ensures |aid| <= 255 ==> AllBytes(SelectByName(aid))
  {
    var cmd := SelectByName(aid);
    assert cmd[..4] == [0x00, 0xA4, 0x04, 0x00] && cmd[5..] == aid;
  }

  /** Every well-formed SELECT-by-name command is the one built for its name. */
  lemma SelectedNameBuilt(cmd: seq<int>)
    requires SelectedName(cmd).Some?
    requires AllBytes(cmd)
    ensures var name := SelectedName(cmd).value;
            (forall i :: 0 <= i < |name| ==> 0 <= name[i] < 256) && cmd == SelectByName(name)
  {
    var name := SelectedName(cmd).value;
    assert forall i :: 0 <= i < |name| ==> name[i] == cmd[i + 5];
    var aid := seq(|name|, i requires 0 <= i < |name| => name[i] as Byte);
    assert aid == name;
    assert cmd == cmd[..4] + [cmd[4]] + cmd[5..];
  }

  /** The high byte of a 16-bit value: Python's `(v >> 8) & 0xFF` (floor shift, two's-complement mask). */
  function HighByte(v: int): Byte {
    (v / 256) % 256
  }

  /** The low byte: Python's `v & 0xFF`. */
  function LowByte(v: int): Byte {
    v % 256
  }

  /** A value in 0..65535 is recovered from its two bytes; outside that range only the low 16 bits are kept. */
  lemma SplitWord(v: int)
    ensures 256 * HighByte(v) + LowByte(v) == v % 65536
    ensures 0 <= v < 65536 ==> 256 * HighByte(v) + LowByte(v) == v
  {
    var q := v / 256;
    assert v == 256 * q + v % 256;
    var hq := q / 256;
    assert q == 256 * hq + q % 256;
    assert v == 65536 * hq + (256 * (q % 256) + v % 256);
    assert 0 <= 256 * (q % 256) + v % 256 < 65536;
  }

  /** `read_cmd` of `read_binary`: `00 B0 P1 P2 Le` with the offset in P1 P2. */
  function ReadBinaryCommand(offset: int, le: int): seq<int> {
    [0x00, 0xB0, HighByte(offset), LowByte(offset), le]
  }

  /** The offset and length carried by a READ BINARY command. */
  function ReadBinaryFields(cmd: seq<int>): (r: Option<(int, int)>) {
    if |cmd| == 5 && cmd[0] == 0x00 && cmd[1] == 0xB0 then Some((256 * cmd[2] + cmd[3], cmd[4]))
    else None
  }

  /** READ BINARY round-trips for offsets 0..65535 and every Le, and is a byte string when Le is a byte. */
  lemma ReadBinaryRoundTrip(offset: int, le: int)
    requires 0 <= offset < 65536
    ensures ReadBinaryFields(ReadBinaryCommand(offset, le)) == Some((offset, le))
    ensures 0 <= le < 256 ==> AllBytes(ReadBinaryCommand(offset, le))
  {
    SplitWord(offset);
  }

  /** `select_cmd` of `read_file`: `00 A4 00 00 02` and the two identifier bytes. */
  function SelectById(fileId: int): seq<int> {
    [0x00, 0xA4, 0x00, 0x00, 0x02, HighByte(fileId), LowByte(fileId)]
  }

  /** The identifier selected by a SELECT-by-identifier command. */
  function SelectedId(cmd: seq<int>): Option<int> {
    if |cmd| == 7 && cmd[..5] == [0x00, 0xA4, 0x00, 0x00, 0x02] then Some(256 * cmd[5] + cmd[6]) else None
  }

  /** SELECT by identifier round-trips for 16-bit identifiers and is always a byte string. */
  lemma SelectByIdRoundTrip(fileId: int)
    requires 0 <= fileId < 65536
    ensures SelectedId(SelectById(fileId)) == Some(fileId)
    ensures AllBytes(SelectById(fileId))
  {
    SplitWord(fileId);
    assert SelectById(fileId)[..5] == [0x00, 0xA4, 0x00, 0x00, 0x02];
  }

  /** The READ BINARY `read_file` sends first: offset 0, Le 0 (let the card choose). */
  function FirstRead(): seq<int> {
    [0x00, 0xB0, 0x00, 0x00, 0x00]
  }

  // ---------------------------------------------------------------------
  // Exchanges with the card

  type Card = (seq<seq<int>>, seq<int>) -> Reply

  /** A reader connection: the card oracle and every command sent so far. */
  class Connection {
    const card: Card
    var sent: seq<seq<int>>

    constructor (card: Card)
      ensures this.card == card && sent == []
    {
      this.card := card;
      sent := [];
    }

    /** `connection.transmit`. */
    method Transmit(cmd: seq<int>) returns (reply: Reply)
      modifies this
      ensures reply == card(old(sent), cmd)
      ensures sent == old(sent) + [cmd]
    {
      reply := card(sent, cmd);
      sent := sent + [cmd];
    }
  }

  /** `select_application`: select by name; success exactly on 90 00. */
  method SelectApplication(conn: Connection, aidHex: string) returns (ok: bool, reply: Reply)
    requires IsHexString(aidHex)
    modifies conn
    ensures conn.sent == old(conn.sent) + [SelectByName(HexToBytes(aidHex))]
    ensures reply == conn.card(old(conn.sent), SelectByName(HexToBytes(aidHex)))
    ensures ok <==> IsSuccess(reply)
  {
    var aidBytes := HexToBytes(aidHex);
    reply := conn.Transmit(SelectByName(aidBytes));
    ok := IsSuccess(reply);
  }

  /** `read_binary`: data only on 90 00. */
  method ReadBinary(conn: Connection, offset: int, length: int) returns (data: Option<seq<Byte>>)
    modifies conn
    ensures conn.sent == old(conn.sent) + [ReadBinaryCommand(offset, length)]
    ensures var reply := conn.card(old(conn.sent), ReadBinaryCommand(offset, length));
            data == if IsSuccess(reply) then Some(reply.data) else None
  {
    var reply := conn.Transmit(ReadBinaryCommand(offset, length));
    if IsSuccess(reply) {
      return Some(reply.data);
    }
    return None;
  }

  /** What `read_file` does against a card: the file data (None on failure) and the commands it sends. */
  function ReadFileRun(card: Card, history: seq<seq<int>>, fileId: int): (r: (Option<seq<Byte>>, seq<seq<int>>)) {
    var select := SelectById(fileId);
    var selected := card(history, select);
    if !IsSuccess(selected) then (None, [select])
    else
      var first := card(history + [select], FirstRead());
      if first.sw1 == 0x6C then
        var retry := ReadBinaryCommand(0, first.sw2);
        var second := card(history + [select, FirstRead()], retry);
        (if IsSuccess(second) then Some(second.data) else None, [select, FirstRead(), retry])
      else
        (if IsSuccess(first) then Some(first.data) else None, [select, FirstRead()])
  }

  /**
   * `read_file` selects the file, reads with Le 0, and re-reads exactly once,
   * with Le = SW2, when SW1 is 6C; it yields data only on a final 90 00.
   */
  lemma ReadFileProtocol(card: Card, history: seq<seq<int>>, fileId: int)
    ensures var (data, cmds) := ReadFileRun(card, history, fileId);
            var selected := card(history, SelectById(fileId));
            var first := card(history + [SelectById(fileId)], FirstRead());
            && 1 <= |cmds| <= 3
            && cmds[0] == SelectById(fileId)
            && (|cmds| >= 2 <==> IsSuccess(selected))
            && (|cmds| >= 2 ==> cmds[1] == [0x00, 0xB0, 0x00, 0x00, 0x00])
            && (|cmds| == 3 <==> IsSuccess(selected) && first.sw1 == 0x6C)
            && (|cmds| == 3 ==> cmds[2] == [0x00, 0xB0, 0x00, 0x00, first.sw2])
            && (data.Some? ==> IsSuccess(card(history + cmds[..|cmds| - 1], cmds[|cmds| - 1]))
                               && data.value == card(history + cmds[..|cmds| - 1], cmds[|cmds| - 1]).data)
            && (data.None? ==> !IsSuccess(card(history + cmds[..|cmds| - 1], cmds[|cmds| - 1])))
  {
    var (data, cmds) := ReadFileRun(card, history, fileId);
    var select := SelectById(fileId);
    assert [select][..0] == [];
    assert history + [] == history;
    assert [select, FirstRead()][..1] == [select];
    assert [select, FirstRead(), ReadBinaryCommand(0, card(history + [select], FirstRead()).sw2)][..2] == [select, FirstRead()];
    assert ReadBinaryCommand(0, card(history + [select], FirstRead()).sw2) == [0x00, 0xB0, 0x00, 0x00, card(history + [select], FirstRead()).sw2];
  }

  /** `read_file`. */
  method ReadFile(conn: Connection, fileId: int) returns (data: Option<seq<Byte>>)
    modifies conn
    ensures (data, conn.sent) == (ReadFileRun(conn.card, old(conn.sent), fileId).0,
                                  old(conn.sent) + ReadFileRun(conn.card, old(conn.sent), fileId).1)
  {
    ghost var h := conn.sent;
    var select := SelectById(fileId);
    var reply := conn.Transmit(select);
    if !IsSuccess(reply) {
      return None;
    }
    reply := conn.Transmit(FirstRead());
    if reply.sw1 == 0x6C {
      var retry := ReadBinaryCommand(0, reply.sw2);
      assert h + [select] + [FirstRead()] == h + [select, FirstRead()];
      reply := conn.Transmit(retry);
      assert h + [select, FirstRead()] + [retry] == h + [select, FirstRead(), retry];
    } else {
      assert h + [select] + [FirstRead()] == h + [select, FirstRead()];
    }
    if IsSuccess(reply) {
      return Some(reply.data);
    }
    return None;
  }
}
