/**
 * `list_applications` of read_stk_applet.py: read EF.DIR, then SELECT the
 * well-known AIDs one by one.
 */
module Applications {

  import opened Apdu
  import opened EfDir
  import opened KnownAids

  /** `list_applications`: the EF.DIR identifiers (printed) and the well-known AIDs that answered (returned). */
  method ListApplications(conn: Connection) returns (dirAids: seq<seq<Byte>>, found: seq<(string, seq<Byte>)>)
    modifies conn
    ensures dirAids == DirAids(ReadFileRun(conn.card, old(conn.sent), 0x2F00).0)
    ensures var afterDir := old(conn.sent) + ReadFileRun(conn.card, old(conn.sent), 0x2F00).1;
            && found == SelectEach(conn.card, afterDir, CommonAids()).0
            && conn.sent == afterDir + SelectEach(conn.card, afterDir, CommonAids()).1
  {
    dirAids := ReadEfDir(conn);
    found := ProbeCommonAids(conn);
  }
}
