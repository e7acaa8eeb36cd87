/**
 * `parse_stk_menu` of read_stk_applet.py: the item loop over an EF.MENU
 * image (first byte the item count, then per item an identifier, a type
 * byte, a name length and the name) and, when no item could be read, the
 * scan for runs of printable ASCII in the raw bytes.
 */
module StkMenu {

  import opened Wrappers
  import opened Apdu
  import opened SeqUtil

  /** One parsed menu item; the name is kept as the raw bytes. */
  datatype MenuItem = MenuItem(id: Byte, kind: Byte, name: seq<Byte>)

  /** A printable run reported by the fallback scan: first and last index and its bytes. */
  datatype TextRun = TextRun(start: int, end: int, text: seq<Byte>)

  /**
   * What `parse_stk_menu` reports: nothing for input under two bytes;
   * otherwise the item count byte, the items read, where the cursor
   * stopped, and the printable runs when the raw dump is shown.
   */
  datatype MenuReport =
    | TooShort
    | Parsed(numItems: Byte, items: seq<MenuItem>, end: nat, raw: Option<seq<TextRun>>)

  /** Items are read only while fewer than this many are announced. */
  function MaxItems(): int { 20 }

  // ---------------------------------------------------------------------
  // The item loop

  /**
   * One pass of the item loop from cursor `idx`: the item read and the
   * cursor after it, or None and the cursor at the `break`. (The check
   * `idx >= len` after reading the identifier cannot fire once
   * `idx + 1 < len` holds, so it has no branch here.)
   */
  function ItemAt(data: seq<Byte>, idx: nat): (r: (Option<MenuItem>, nat))
    requires idx < |data|
    ensures idx <= r.1 <= |data|
    ensures r.0.Some? ==> r.1 == idx + 3 + |r.0.value.name| && |r.0.value.name| > 0
  {
    if idx + 1 >= |data| then (None, idx)
    else if idx + 2 >= |data| then (None, idx + 2)
    else
      var nameLen := data[idx + 2];
      if nameLen > 0 && idx + 3 + nameLen <= |data| then
        (Some(MenuItem(data[idx], data[idx + 1], data[idx + 3..idx + 3 + nameLen])), idx + 3 + nameLen)
      else (None, idx + 3)
  }

  /** The loop condition of the item loop. */
  predicate Continues(data: seq<Byte>, idx: nat, count: nat, n: int) {
    idx < |data| && count < n && n < MaxItems()
  }

  /**
   * The items the loop reads from cursor `idx` with `count` items already
   * read, `n` being the announced count, and the cursor where it stops.
   */
  function ParseItems(data: seq<Byte>, idx: nat, count: nat, n: int): (r: (seq<MenuItem>, nat))
    requires idx <= |data|
    ensures idx <= r.1 <= |data|
    ensures count + |r.0| <= n || r.0 == []
    ensures n >= MaxItems() ==> r == ([], idx)
    decreases |data| - idx
  {
    if Continues(data, idx, count, n) then
      var step := ItemAt(data, idx);
      if step.0.Some? then
        var rest := ParseItems(data, step.1, count + 1, n);
        ([step.0.value] + rest.0, rest.1)
      else ([], step.1)
    else ([], idx)
  }

  /** One item read: the loop goes on from the cursor after it. */
  lemma ParseItemsStep(data: seq<Byte>, idx: nat, count: nat, n: int, item: MenuItem, next: nat)
    requires idx < |data| && count < n < MaxItems() && ItemAt(data, idx) == (Some(item), next)
    ensures next <= |data|
    ensures var rest := ParseItems(data, next, count + 1, n);
            ParseItems(data, idx, count, n) == ([item] + rest.0, rest.1)
  {
  }

  /** The item read heads the items the rest of the loop reads. */
  lemma ParseItemsCons(data: seq<Byte>, idx: nat, count: nat, n: int, items: seq<MenuItem>, next: nat)
    requires idx < |data| && count < n < MaxItems() && items != []
    requires ItemAt(data, idx) == (Some(items[0]), next) && next <= |data|
    requires ParseItems(data, next, count + 1, n) == (items[1..], |data|)
    ensures ParseItems(data, idx, count, n) == (items, |data|)
  {
    ParseItemsStep(data, idx, count, n, items[0], next);
    HeadTail(items);
  }

  /** At the end of the data the loop stops where it is. */
  lemma ParseItemsAtEnd(data: seq<Byte>, count: nat, n: int)
    ensures ParseItems(data, |data|, count, n) == ([], |data|)
  {
  }

  /** An item as the file lays it out: identifier, type, name length, name. */
  function EncodeItem(item: MenuItem): seq<int> {
    [item.id, item.kind, |item.name|] + item.name
  }

  function EncodeItems(items: seq<MenuItem>): seq<int> {
    if items == [] then [] else EncodeItem(items[0]) + EncodeItems(items[1..])
  }

  /** An item the file format can carry: a name of 1 to 255 bytes. */
  predicate Encodable(item: MenuItem) {
    0 < |item.name| < 256
  }

  predicate AllEncodable(items: seq<MenuItem>) {
    forall k :: 0 <= k < |items| ==> Encodable(items[k])
  }

  lemma AllEncodableTail(items: seq<MenuItem>)
    requires items != [] && AllEncodable(items)
    ensures Encodable(items[0]) && AllEncodable(items[1..])
  {
    assert forall k :: 0 <= k < |items| - 1 ==> items[1..][k] == items[k + 1];
  }

  /** One item read from the cursor is exactly the bytes it occupies. */
  lemma ItemAtBytes(data: seq<Byte>, idx: nat)
    requires idx < |data| && ItemAt(data, idx).0.Some?
    ensures var step := ItemAt(data, idx);
            data[idx..step.1] == EncodeItem(step.0.value)
  {
    var step := ItemAt(data, idx);
    var e := EncodeItem(step.0.value);
    assert |data[idx..step.1]| == |e|;
    forall k | 0 <= k < |e|
      ensures data[idx..step.1][k] == e[k]
    {
      if k >= 3 {
        assert e[k] == step.0.value.name[k - 3];
      }
    }
  }

  /** `items` are laid out one after another from `idx`, ending no later than `end`. */
  predicate LaidOut(data: seq<Byte>, idx: nat, items: seq<MenuItem>, end: nat) {
    && idx + |EncodeItems(items)| <= end <= |data|
    && data[idx..idx + |EncodeItems(items)|] == EncodeItems(items)
  }

  lemma LaidOutCons(data: seq<Byte>, idx: nat, next: nat, item: MenuItem, rest: seq<MenuItem>, end: nat)
    requires idx <= next <= |data| && data[idx..next] == EncodeItem(item)
    requires LaidOut(data, next, rest, end)
    ensures LaidOut(data, idx, [item] + rest, end)
  {
    var items := [item] + rest;
    assert items[1..] == rest;
    EncodeItemsCons(items);
    SliceSplit(data, idx, next, next + |EncodeItems(rest)|);
  }

  /**
   * The items read are the consecutive encodings of the bytes from the
   * starting cursor on: every item consumes 3 + name-length bytes.
   */
  lemma {:induction false} ParseItemsBytes(data: seq<Byte>, idx: nat, count: nat, n: int)
    requires idx <= |data|
    ensures var r := ParseItems(data, idx, count, n);
            LaidOut(data, idx, r.0, r.1)
    decreases |data| - idx
  {
    if Continues(data, idx, count, n) && ItemAt(data, idx).0.Some? {
      var step := ItemAt(data, idx);
      var rest := ParseItems(data, step.1, count + 1, n);
      ParseItemsBytes(data, step.1, count + 1, n);
      ItemAtBytes(data, idx);
      ParseItemsStep(data, idx, count, n, step.0.value, step.1);
      LaidOutCons(data, idx, step.1, step.0.value, rest.0, rest.1);
    }
  }

  /** Reading an encodable item from its own encoding gives it back. */
  lemma ItemAtEncoded(data: seq<Byte>, idx: nat, item: MenuItem)
    requires Encodable(item)
    requires idx + |EncodeItem(item)| <= |data| && data[idx..idx + |EncodeItem(item)|] == EncodeItem(item)
    ensures ItemAt(data, idx) == (Some(item), idx + |EncodeItem(item)|)
  {
    var e := EncodeItem(item);
    assert data[idx] == e[0] && data[idx + 1] == e[1] && data[idx + 2] == e[2];
    assert data[idx + 3..idx + 3 + |item.name|] == e[3..];
  }

  /** Splitting off the first item's encoding. */
  lemma EncodeItemsCons(items: seq<MenuItem>)
    requires items != []
    ensures EncodeItems(items) == EncodeItem(items[0]) + EncodeItems(items[1..])
  {
  }

  /** The first of several encoded items is read back, and the rest follow it. */
  lemma EncodedSplit(data: seq<Byte>, idx: nat, items: seq<MenuItem>)
    requires idx <= |data| && data[idx..] == EncodeItems(items)
    requires items != [] && Encodable(items[0])
    ensures var next := idx + |EncodeItem(items[0])|;
            && next <= |data| && ItemAt(data, idx) == (Some(items[0]), next)
            && data[next..] == EncodeItems(items[1..])
  {
    EncodeItemsCons(items);
    var a := EncodeItem(items[0]);
    assert data[idx..idx + |a|] == a by {
      assert data[idx..idx + |a|] == data[idx..][..|a|];
    }
    ItemAtEncoded(data, idx, items[0]);
    assert data[idx + |a|..] == data[idx..][|a|..];
  }

  /** One step of the round trip: the rest is laid out the same way, and reading it completes the whole. */
  lemma EncodedStep(data: seq<Byte>, idx: nat, items: seq<MenuItem>, count: nat, n: int) returns (next: nat)
    requires idx <= |data| && data[idx..] == EncodeItems(items)
    requires items != [] && AllEncodable(items) && count + |items| <= n < MaxItems()
    ensures next <= |data| && data[next..] == EncodeItems(items[1..]) && AllEncodable(items[1..])
    ensures ParseItems(data, next, count + 1, n) == (items[1..], |data|) ==>
              ParseItems(data, idx, count, n) == (items, |data|)
  {
    AllEncodableTail(items);
    EncodedSplit(data, idx, items);
    next := idx + |EncodeItem(items[0])|;
    if ParseItems(data, next, count + 1, n) == (items[1..], |data|) {
      ParseItemsCons(data, idx, count, n, items, next);
    }
  }

  /**
   * Round trip: encodable items laid out to the end of the data, no more
   * than announced, are read back exactly and the cursor ends at the end.
   */
  lemma {:induction false} ParseItemsEncoded(data: seq<Byte>, idx: nat, items: seq<MenuItem>, count: nat, n: int)
    requires idx <= |data| && data[idx..] == EncodeItems(items)
    requires AllEncodable(items)
    requires count + |items| <= n < MaxItems()
    ensures ParseItems(data, idx, count, n) == (items, |data|)
    decreases |items|
  {
    if items == [] {
      assert |data[idx..]| == 0;
      ParseItemsAtEnd(data, count, n);
    } else {
      var next := EncodedStep(data, idx, items, count, n);
      ParseItemsEncoded(data, next, items[1..], count + 1, n);
    }
  }

  // ---------------------------------------------------------------------
  // The printable-run scan

  /** A byte shown as text by the scan: printable ASCII. */
  predicate Printable(b: Byte) {
    32 <= b < 127
  }

  /** The runs the scan reports from position `i` on, `chars` being the run in progress from `start`. */
  function ScanFrom(data: seq<Byte>, i: nat, start: int, chars: seq<Byte>): seq<TextRun>
    decreases |data| - i
  {
    if i >= |data| then
      if |chars| >= 3 then [TextRun(start, |data| - 1, chars)] else []
    else if Printable(data[i]) then
      ScanFrom(data, i + 1, if chars == [] then i else start, chars + [data[i]])
    else if chars != [] then
      (if |chars| >= 3 then [TextRun(start, i - 1, chars)] else []) + ScanFrom(data, i + 1, start, [])
    else ScanFrom(data, i + 1, start, [])
  }

  function TextRuns(data: seq<Byte>): seq<TextRun> {
    ScanFrom(data, 0, 0, [])
  }

  predicate AllPrintable(data: seq<Byte>, lo: int, hi: int)
    requires 0 <= lo <= hi <= |data|
  {
    forall k :: lo <= k < hi ==> Printable(data[k])
  }

  /** Positions `s` to `e` are a maximal run of at least three printable bytes. */
  predicate MaximalRun(data: seq<Byte>, s: int, e: int) {
    && 0 <= s && s + 2 <= e < |data|
    && AllPrintable(data, s, e + 1)
    && (s == 0 || !Printable(data[s - 1]))
    && (e + 1 == |data| || !Printable(data[e + 1]))
  }

  /** What the scan knows at position `i`: the run in progress is `data[start..i]` and cannot extend left. */
  predicate ScanInv(data: seq<Byte>, i: nat, start: int, chars: seq<Byte>) {
    && i <= |data|
    && (chars != [] ==>
          && 0 <= start && start + |chars| == i
          && chars == data[start..i] && AllPrintable(data, start, i)
          && (start == 0 || !Printable(data[start - 1])))
    && (chars == [] ==> i == 0 || !Printable(data[i - 1]))
  }

  lemma ScanInvPrintable(data: seq<Byte>, i: nat, start: int, chars: seq<Byte>)
    requires ScanInv(data, i, start, chars) && i < |data| && Printable(data[i])
    ensures ScanInv(data, i + 1, if chars == [] then i else start, chars + [data[i]])
  {
    var s := if chars == [] then i else start;
    assert data[s..i + 1] == data[s..i] + [data[i]];
  }

  lemma ScanInvBreak(data: seq<Byte>, i: nat, start: int, chars: seq<Byte>)
    requires ScanInv(data, i, start, chars) && i < |data| && !Printable(data[i])
    ensures ScanInv(data, i + 1, start, [])
  {
  }

  /** A run the scan closes is maximal and holds the bytes it spans. */
  lemma ClosedRunSound(data: seq<Byte>, i: nat, start: int, chars: seq<Byte>)
    requires ScanInv(data, i, start, chars) && |chars| >= 3
    requires i == |data| || !Printable(data[i])
    ensures MaximalRun(data, start, i - 1) && chars == data[start..i - 1 + 1]
  {
  }

  /** Soundness: every reported run is a maximal printable run of three or more bytes, with its bytes. */
  lemma {:induction false} ScanSound(data: seq<Byte>, i: nat, start: int, chars: seq<Byte>, r: TextRun)
    requires ScanInv(data, i, start, chars) && r in ScanFrom(data, i, start, chars)
    ensures MaximalRun(data, r.start, r.end) && r.text == data[r.start..r.end + 1]
    decreases |data| - i
  {
    if i >= |data| {
      ClosedRunSound(data, i, start, chars);
    } else if Printable(data[i]) {
      ScanInvPrintable(data, i, start, chars);
      ScanSound(data, i + 1, if chars == [] then i else start, chars + [data[i]], r);
    } else {
      ScanInvBreak(data, i, start, chars);
      if r in ScanFrom(data, i + 1, start, []) {
        ScanSound(data, i + 1, start, [], r);
      } else {
        ClosedRunSound(data, i, start, chars);
      }
    }
  }

  /** A maximal run starting where the run in progress starts ends at the first non-printable byte. */
  lemma RunEndsAtBreak(data: seq<Byte>, i: nat, start: int, chars: seq<Byte>, e: int)
    requires ScanInv(data, i, start, chars) && chars != [] && MaximalRun(data, start, e)
    requires i == |data| || !Printable(data[i])
    ensures e == i - 1
  {
  }

  /** A maximal run cannot start right after a printable byte. */
  lemma RunNotAfterPrintable(data: seq<Byte>, s: int, e: int)
    requires MaximalRun(data, s, e) && s > 0
    ensures !Printable(data[s - 1])
  {
  }

  /** A maximal run holds no non-printable byte. */
  lemma RunNotAtBreak(data: seq<Byte>, s: int, e: int, k: int)
    requires MaximalRun(data, s, e) && 0 <= k < |data| && !Printable(data[k])
    ensures k < s || e < k
  {
  }

  /** Where a maximal run can start relative to the scan position. */
  predicate Pending(i: nat, start: int, chars: seq<Byte>, s: int) {
    (chars != [] && s == start) || s >= i
  }

  lemma PendingPrintable(data: seq<Byte>, i: nat, start: int, chars: seq<Byte>, s: int, e: int)
    requires ScanInv(data, i, start, chars) && i < |data| && Printable(data[i])
    requires MaximalRun(data, s, e) && Pending(i, start, chars, s)
    ensures Pending(i + 1, if chars == [] then i else start, chars + [data[i]], s)
  {
    if s == i && chars != [] {
      RunNotAfterPrintable(data, s, e);
    }
  }

  /** Completeness: every maximal printable run of three or more bytes still ahead is reported. */
  lemma {:induction false} ScanComplete(data: seq<Byte>, i: nat, start: int, chars: seq<Byte>, s: int, e: int)
    requires ScanInv(data, i, start, chars) && MaximalRun(data, s, e) && Pending(i, start, chars, s)
    ensures TextRun(s, e, data[s..e + 1]) in ScanFrom(data, i, start, chars)
    decreases |data| - i
  {
    if i >= |data| {
      RunEndsAtBreak(data, i, start, chars, e);
    } else if Printable(data[i]) {
      ScanInvPrintable(data, i, start, chars);
      PendingPrintable(data, i, start, chars, s, e);
      ScanComplete(data, i + 1, if chars == [] then i else start, chars + [data[i]], s, e);
    } else {
      ScanInvBreak(data, i, start, chars);
      RunNotAtBreak(data, s, e, i);
      if chars != [] && s == start {
        RunEndsAtBreak(data, i, start, chars, e);
      } else {
        ScanComplete(data, i + 1, start, [], s, e);
      }
    }
  }

  /**
   * The scan reports exactly the maximal printable runs of three or more
   * bytes, each with its first and last index and its bytes.
   */
  lemma TextRunsExact(data: seq<Byte>, r: TextRun)
    ensures r in TextRuns(data) <==> MaximalRun(data, r.start, r.end) && r.text == data[r.start..r.end + 1]
  {
    if r in TextRuns(data) {
      ScanSound(data, 0, 0, [], r);
    }
    if MaximalRun(data, r.start, r.end) && r.text == data[r.start..r.end + 1] {
      ScanComplete(data, 0, 0, [], r.start, r.end);
    }
  }

  /** The scan loop of `parse_stk_menu` over the whole data. */
  method ScanText(data: seq<Byte>) returns (runs: seq<TextRun>)
    ensures runs == TextRuns(data)
  {
    runs := [];
    var chars: seq<Byte> := [];
    var start := 0;
    var i := 0;
    while i < |data|
      invariant 0 <= i <= |data|
      invariant runs + ScanFrom(data, i, start, chars) == TextRuns(data)
    {
      if Printable(data[i]) {
        if chars == [] {
          start := i;
        }
        chars := chars + [data[i]];
      } else if chars != [] {
        if |chars| >= 3 {
          AppendAssoc(runs, [TextRun(start, i - 1, chars)], ScanFrom(data, i + 1, start, []));
          runs := runs + [TextRun(start, i - 1, chars)];
        }
        chars := [];
      }
      i := i + 1;
    }
    if chars != [] && |chars| >= 3 {
      runs := runs + [TextRun(start, |data| - 1, chars)];
    }
  }

  // ---------------------------------------------------------------------
  // parse_stk_menu

  /** What `parse_stk_menu` reports for `data`. */
  function ParseMenu(data: seq<Byte>): MenuReport {
    if |data| < 2 then TooShort
    else
      var r := ParseItems(data, 1, 0, data[0]);
      Parsed(data[0], r.0, r.1, if r.1 <= 1 || |r.0| == 0 then Some(TextRuns(data)) else None)
  }

  /** The raw dump is shown exactly when no item was read. */
  lemma RawShownIffNoItems(data: seq<Byte>)
    requires |data| >= 2
    ensures ParseMenu(data).raw.Some? <==> ParseMenu(data).items == []
  {
    var r := ParseItems(data, 1, 0, data[0]);
    if r.0 != [] {
      ParseItemsBytes(data, 1, 0, data[0]);
      assert |EncodeItems(r.0)| >= 3;
    }
  }

  /** The cursor never passes the end, and no more items are read than announced, none at 20 or more. */
  lemma ParseMenuBounds(data: seq<Byte>)
    requires |data| >= 2
    ensures var m := ParseMenu(data);
            && m.Parsed? && m.numItems == data[0] && 1 <= m.end <= |data|
            && |m.items| <= m.numItems
            && (m.numItems >= MaxItems() ==> m.items == [] && m.end == 1)
  {
  }

  /** A menu image of 1 to 19 encodable items, announced by its count, parses back to those items. */
  lemma MenuRoundTrip(data: seq<Byte>, items: seq<MenuItem>)
    requires 0 < |items| < MaxItems()
    requires AllEncodable(items)
    requires data == [|items|] + EncodeItems(items)
    ensures ParseMenu(data) == Parsed(|items|, items, |data|, None)
  {
    assert data[1..] == EncodeItems(items);
    ParseItemsEncoded(data, 1, items, 0, |items|);
  }

  /** The loop state at cursor `idx`: `items` read so far, and the rest of the loop completes the whole. */
  ghost predicate Resumes(data: seq<Byte>, items: seq<MenuItem>, idx: nat, count: nat, n: int)
    requires 1 <= idx <= |data|
  {
    var total := ParseItems(data, 1, 0, n);
    var rest := ParseItems(data, idx, count, n);
    items + rest.0 == total.0 && rest.1 == total.1
  }

  lemma ResumesStart(data: seq<Byte>, n: int)
    requires 1 <= |data|
    ensures Resumes(data, [], 1, 0, n)
  {
    assert [] + ParseItems(data, 1, 0, n).0 == ParseItems(data, 1, 0, n).0;
  }

  /** A `break` in the item loop ends it with the items read so far and the cursor where it broke. */
  lemma ResumesBreak(data: seq<Byte>, items: seq<MenuItem>, idx: nat, count: nat, n: int, stop: nat)
    requires 1 <= idx <= |data| && Resumes(data, items, idx, count, n)
    requires Continues(data, idx, count, n) && ItemAt(data, idx) == (None, stop)
    ensures items == ParseItems(data, 1, 0, n).0 && stop == ParseItems(data, 1, 0, n).1
  {
  }

  /** A false loop condition ends the loop where it is. */
  lemma ResumesExit(data: seq<Byte>, items: seq<MenuItem>, idx: nat, count: nat, n: int)
    requires 1 <= idx <= |data| && Resumes(data, items, idx, count, n) && !Continues(data, idx, count, n)
    ensures items == ParseItems(data, 1, 0, n).0 && idx == ParseItems(data, 1, 0, n).1
  {
  }

  /** Reading one more item keeps the loop state. */
  lemma ResumesItem(data: seq<Byte>, items: seq<MenuItem>, idx: nat, count: nat, n: int, item: MenuItem, next: nat)
    requires 1 <= idx < |data| && Resumes(data, items, idx, count, n)
    requires count < n < MaxItems() && ItemAt(data, idx) == (Some(item), next)
    ensures next <= |data| && Resumes(data, items + [item], next, count + 1, n)
  {
    ParseItemsStep(data, idx, count, n, item, next);
    AppendAssoc(items, [item], ParseItems(data, next, count + 1, n).0);
  }

  /** The item loop of `parse_stk_menu`, from the byte after the count. */
  method ReadItems(data: seq<Byte>) returns (items: seq<MenuItem>, idx: nat)
    requires 1 <= |data|
    ensures (items, idx) == ParseItems(data, 1, 0, data[0])
  {
    var numItems := data[0];
    idx := 1;
    var itemIdx := 0;
    items := [];
    ResumesStart(data, numItems);
    while idx < |data| && itemIdx < numItems && numItems < MaxItems()
      invariant 1 <= idx <= |data| && itemIdx == |items|
      invariant Resumes(data, items, idx, itemIdx, numItems)
      decreases |data| - idx
    {
      ghost var at := idx;
      if idx + 1 >= |data| {
        ResumesBreak(data, items, at, itemIdx, numItems, idx);
        break;
      }
      var menuId := data[idx];
      idx := idx + 1;
      var menuType := data[idx];
      idx := idx + 1;
      if idx >= |data| {
        ResumesBreak(data, items, at, itemIdx, numItems, idx);
        break;
      }
      var nameLen := data[idx];
      idx := idx + 1;
      if nameLen > 0 && idx + nameLen <= |data| {
        var item := MenuItem(menuId, menuType, data[idx..idx + nameLen]);
        ResumesItem(data, items, at, itemIdx, numItems, item, idx + nameLen);
        items := items + [item];
        idx := idx + nameLen;
        itemIdx := itemIdx + 1;
      } else {
        ResumesBreak(data, items, at, itemIdx, numItems, idx);
        break;
      }
    }
    if !(idx < |data| && itemIdx < numItems && numItems < MaxItems()) {
      ResumesExit(data, items, idx, itemIdx, numItems);
    }
  }

  /** `parse_stk_menu`: the item loop, then the printable-run scan when no item was read. */
  method ParseStkMenu(data: seq<Byte>) returns (report: MenuReport)
    ensures report == ParseMenu(data)
  {
    if |data| < 2 {
      return TooShort;
    }
    var items, idx := ReadItems(data);
    var raw := None;
    if idx <= 1 || |items| == 0 {
      var runs := ScanText(data);
      raw := Some(runs);
    }
    report := Parsed(data[0], items, idx, raw);
  }
}
