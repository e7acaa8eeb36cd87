/**
 * The string operations of Go's `strings` package that the AID catalog code
 * uses, restricted to ASCII: `TrimSpace`, `ToUpper`, `ReplaceAll(s, " ", "")`,
 * `HasPrefix` (Dafny's prefix relation `p <= s`), `Contains` and the first
 * colon that `SplitN(s, ":", 2)` splits on.
 */
module StringUtil {

  import opened Wrappers

  /** ASCII white space as Go's `unicode.IsSpace` sees it: tab, LF, VT, FF, CR, space. */
  predicate IsSpace(c: char) {
    c == ' ' || (9 <= c as int <= 13)
  }

  /** No white space at either end. */
  predicate IsTrimmed(s: string) {
    s == [] || (!IsSpace(s[0]) && !IsSpace(s[|s| - 1]))
  }

  /** Drops the leading white space: the longest suffix that starts with a non-space. */
  function TrimLeft(s: string): (r: string)
    ensures |r| <= |s| && r == s[|s| - |r|..]
    ensures r == [] || !IsSpace(r[0])
    ensures forall i :: 0 <= i < |s| - |r| ==> IsSpace(s[i])
  {
    if |s| > 0 && IsSpace(s[0]) then TrimLeft(s[1..]) else s
  }

  /** Drops the trailing white space: the longest prefix that ends with a non-space. */
  function TrimRight(s: string): (r: string)
    ensures |r| <= |s| && r == s[..|r|]
    ensures r == [] || !IsSpace(r[|r| - 1])
    ensures forall i :: |r| <= i < |s| ==> IsSpace(s[i])
  {
    if |s| > 0 && IsSpace(s[|s| - 1]) then TrimRight(s[..|s| - 1]) else s
  }

  /** Go's `strings.TrimSpace` on ASCII text. */
  function TrimSpace(s: string): (r: string)
    ensures IsTrimmed(r)
    ensures |r| <= |s|
  {
    TrimLeft(TrimRight(s))
  }

  lemma TrimLeftOfTrimmed(s: string)
    requires s == [] || !IsSpace(s[0])
    ensures TrimLeft(s) == s
  {
  }

  lemma TrimRightOfTrimmed(s: string)
    requires s == [] || !IsSpace(s[|s| - 1])
    ensures TrimRight(s) == s
  {
  }

  /** Trimming text that has no white space at its ends changes nothing. */
  lemma TrimSpaceOfTrimmed(s: string)
    requires IsTrimmed(s)
    ensures TrimSpace(s) == s
  {
    TrimRightOfTrimmed(s);
    TrimLeftOfTrimmed(s);
  }

  /** Leading white space in front of trimmed text is what TrimLeft removes. */
  lemma {:induction false} TrimLeftSkipsSpaces(sp: string, d: string)
    requires forall i :: 0 <= i < |sp| ==> IsSpace(sp[i])
    requires d == [] || !IsSpace(d[0])
    ensures TrimLeft(sp + d) == d
  {
    if sp == [] {
      assert sp + d == d;
    } else {
      assert (sp + d)[1..] == sp[1..] + d;
      TrimLeftSkipsSpaces(sp[1..], d);
    }
  }

  /** ASCII upper-casing of one character (Go's `unicode.ToUpper` on ASCII). */
  function UpperChar(c: char): char {
    if 'a' <= c <= 'z' then (c as int - 'a' as int + 'A' as int) as char else c
  }

  /** Go's `strings.ToUpper` on ASCII text. */
  function ToUpper(s: string): (r: string)
    ensures |r| == |s|
    ensures forall i :: 0 <= i < |s| ==> r[i] == UpperChar(s[i])
  {
    if s == [] then [] else [UpperChar(s[0])] + ToUpper(s[1..])
  }

  /** Text without lower-case letters is its own upper-case form. */
  lemma ToUpperOfUpper(s: string)
    requires forall i :: 0 <= i < |s| ==> !('a' <= s[i] <= 'z')
    ensures ToUpper(s) == s
  {
  }

  /** Go's `strings.ReplaceAll(s, " ", "")`: every blank removed, the rest kept in order. */
  function RemoveSpaces(s: string): (r: string)
    ensures |r| <= |s|
    ensures forall i :: 0 <= i < |r| ==> r[i] != ' '
    ensures forall c :: c != ' ' ==> multiset(r)[c] == multiset(s)[c]
  {
    if s == [] then []
    else if s[0] == ' ' then
      assert s == [s[0]] + s[1..];
      RemoveSpaces(s[1..])
    else
      assert s == [s[0]] + s[1..];
      [s[0]] + RemoveSpaces(s[1..])
  }

  /** Text without blanks is left alone by RemoveSpaces. */
  lemma {:induction false} RemoveSpacesOfBlankFree(s: string)
    requires forall i :: 0 <= i < |s| ==> s[i] != ' '
    ensures RemoveSpaces(s) == s
  {
    if s != [] {
      RemoveSpacesOfBlankFree(s[1..]);
    }
  }

  /** Blank removal distributes over concatenation. */
  lemma {:induction false} RemoveSpacesAppend(a: string, b: string)
    ensures RemoveSpaces(a + b) == RemoveSpaces(a) + RemoveSpaces(b)
  {
    if a != [] {
      assert (a + b)[0] == a[0] && (a + b)[1..] == a[1..] + b;
      RemoveSpacesAppend(a[1..], b);
    } else {
      assert a + b == b;
    }
  }

  /** Removing blanks and dropping leading white space can be done in either order. */
  lemma {:induction false} RemoveSpacesTrimLeft(s: string)
    ensures RemoveSpaces(TrimLeft(s)) == TrimLeft(RemoveSpaces(s))
  {
    if s != [] {
      if IsSpace(s[0]) {
        RemoveSpacesTrimLeft(s[1..]);
      } else {
        assert RemoveSpaces(s) == [s[0]] + RemoveSpaces(s[1..]);
      }
    }
  }

  /** Removing blanks and dropping trailing white space can be done in either order. */
  lemma {:induction false} RemoveSpacesTrimRight(s: string)
    ensures RemoveSpaces(TrimRight(s)) == TrimRight(RemoveSpaces(s))
    decreases |s|
  {
    if s != [] {
      var init, c := s[..|s| - 1], s[|s| - 1];
      assert s == init + [c];
      RemoveSpacesAppend(init, [c]);
      assert RemoveSpaces([c]) == if c == ' ' then [] else [c];
      if IsSpace(c) {
        RemoveSpacesTrimRight(init);
        var r := RemoveSpaces(init);
        if c != ' ' {
          assert (r + [c])[..|r|] == r && (r + [c])[|r|] == c;
          assert TrimRight(r + [c]) == TrimRight(r);
        } else {
          assert r + [] == r;
        }
        assert TrimRight(s) == TrimRight(init);
      }
    }
  }

  /** `TrimSpace(ReplaceAll(s, " ", ""))` and `ReplaceAll(TrimSpace(s), " ", "")` agree. */
  lemma TrimSpaceRemoveSpacesCommute(s: string)
    ensures TrimSpace(RemoveSpaces(s)) == RemoveSpaces(TrimSpace(s))
  {
    RemoveSpacesTrimRight(s);
    RemoveSpacesTrimLeft(TrimRight(s));
  }

  /** `sub` occurs in `s` starting at index `i`. */
  predicate OccursAt(s: string, sub: string, i: int) {
    0 <= i && i + |sub| <= |s| && s[i..i + |sub|] == sub
  }

  /** Go's `strings.Contains`. */
  function Contains(s: string, sub: string): (r: bool)
    ensures r <==> exists i :: OccursAt(s, sub, i)
  {
    if sub <= s then
      assert OccursAt(s, sub, 0);
      true
    else if s == [] then
      false
    else
      var r := Contains(s[1..], sub);
      assert forall i :: OccursAt(s[1..], sub, i) <==> OccursAt(s, sub, i + 1);
      assert forall i :: OccursAt(s, sub, i) ==> i == 0 || OccursAt(s[1..], sub, i - 1);
      r
  }

  /** The index of the first ':' in `s`, which `SplitN(s, ":", 2)` splits at. */
  function ColonIndex(s: string): (r: Option<nat>)
    ensures r.Some? ==> r.value < |s| && s[r.value] == ':'
                        && forall j :: 0 <= j < r.value ==> s[j] != ':'
    ensures r.None? ==> forall j :: 0 <= j < |s| ==> s[j] != ':'
  {
    if s == [] then None
    else if s[0] == ':' then Some(0)
    else match ColonIndex(s[1..])
      case None => None
      case Some(k) => Some(k + 1)
  }
}
