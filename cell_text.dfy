/** Cleanup of one table cell's text: Python's `str.strip()` followed by
    removal of every literal two-character sequence backslash-n, which
    appears in the page because it is the `str()` of a `bytes` value. */
module CellText {

  /** Python's `str.isspace()` on a single character. */
  predicate IsSpace(c: char)
    ensures c == ' ' || c == '\t' || c == '\n' || c == '\r' ==> IsSpace(c)
    ensures IsSpace(c) ==> c != '\\' && c != 'n'
  {
    || c == ' ' || ('\t' <= c <= '\r') || ('\U{1C}' <= c <= '\U{1F}')
    || c == '\U{85}' || c == '\U{A0}' || c == '\U{1680}'
    || ('\U{2000}' <= c <= '\U{200A}') || c == '\U{2028}' || c == '\U{2029}'
    || c == '\U{202F}' || c == '\U{205F}' || c == '\U{3000}'
  }

  /** Index of the first non-whitespace character at or after `k`, or
      `|s|` when there is none. */
  function SkipSpace(s: string, k: nat): (i: nat)
    requires k <= |s|
    ensures k <= i <= |s|
    ensures forall m :: k <= m < i ==> IsSpace(s[m])
    ensures i < |s| ==> !IsSpace(s[i])
    decreases |s| - k
  {
    if k < |s| && IsSpace(s[k]) then SkipSpace(s, k + 1) else k
  }

  /** Index just past the last non-whitespace character of `s[lo..j]`, or
      `lo` when there is none. */
  function BackOverSpace(s: string, lo: nat, j: nat): (e: nat)
    requires lo <= j <= |s|
    ensures lo <= e <= j
    ensures forall m :: e <= m < j ==> IsSpace(s[m])
    ensures e > lo ==> !IsSpace(s[e - 1])
    decreases j
  {
    if j > lo && IsSpace(s[j - 1]) then BackOverSpace(s, lo, j - 1) else j
  }

  /** Python's `str.strip()`: the text between the leading and the trailing
      whitespace. */
  function Strip(s: string): (r: string)
    ensures exists i, j ::
              && 0 <= i <= j <= |s| && r == s[i..j]
              && (forall m :: 0 <= m < i ==> IsSpace(s[m]))
              && (forall m :: j <= m < |s| ==> IsSpace(s[m]))
    ensures r != [] ==> !IsSpace(r[0]) && !IsSpace(r[|r| - 1])
  {
    var i := SkipSpace(s, 0);
    var j := BackOverSpace(s, i, |s|);
    s[i..j]
  }

  /** The two-character sequence backslash, `n` starts at index `i`. */
  predicate BackslashNAt(s: string, i: int) {
    0 <= i && i + 1 < |s| && s[i] == '\\' && s[i + 1] == 'n'
  }

  predicate ContainsBackslashN(s: string) {
    exists i :: 0 <= i < |s| && BackslashNAt(s, i)
  }

  /** Python's `s.replace("\\n", "")`: occurrences are found left to right
      and do not overlap. The result is never longer than the input. */
  function RemoveBackslashN(s: string): (r: string)
    ensures |r| <= |s|
  {
    if BackslashNAt(s, 0) then
      var r := RemoveBackslashN(s[2..]);
      assert s == s[..2] + s[2..];
      r
    else if s == [] then
      []
    else
      var r := RemoveBackslashN(s[1..]);
      assert s == [s[0]] + s[1..];
      [s[0]] + r
  }

  /** A cell with no occurrence is left as it is. */
  lemma {:induction false} NoOccurrenceUnchanged(s: string)
    requires !ContainsBackslashN(s)
    ensures RemoveBackslashN(s) == s
  {
    if s != [] {
      assert !BackslashNAt(s, 0);
      assert !ContainsBackslashN(s[1..]) by {
        forall i | BackslashNAt(s[1..], i) ensures false {
          assert BackslashNAt(s, i + 1);
        }
      }
      NoOccurrenceUnchanged(s[1..]);
    }
  }

  /** Removal works piece by piece, as long as the first piece does not end
      in a backslash that could pair with an `n` at the start of the second. */
  lemma {:induction false} RemoveDistributes(a: string, b: string)
    requires a == [] || a[|a| - 1] != '\\'
    ensures RemoveBackslashN(a + b) == RemoveBackslashN(a) + RemoveBackslashN(b)
  {
    var ab := a + b;
    if a == [] {
      assert ab == b;
    } else if BackslashNAt(a, 0) {
      assert BackslashNAt(ab, 0);
      assert ab[2..] == a[2..] + b;
      RemoveDistributes(a[2..], b);
      assert RemoveBackslashN(ab) == RemoveBackslashN(a[2..] + b);
    } else {
      assert !BackslashNAt(ab, 0) by {
        if |a| == 1 { assert ab[0] == a[0] != '\\'; }
        else { assert ab[0] == a[0] && ab[1] == a[1]; }
      }
      assert ab[1..] == a[1..] + b;
      RemoveDistributes(a[1..], b);
      assert RemoveBackslashN(ab) == [ab[0]] + RemoveBackslashN(a[1..] + b);
      assert RemoveBackslashN(a) == [a[0]] + RemoveBackslashN(a[1..]);
    }
  }

  predicate HasDoubledBackslash(s: string) {
    exists i :: 0 <= i < |s| - 1 && s[i] == '\\' && s[i + 1] == '\\'
  }

  /** The first character survives removal unless it starts an occurrence. */
  lemma FirstCharKept(s: string)
    requires s != [] && s[0] != '\\'
    ensures RemoveBackslashN(s) != [] && RemoveBackslashN(s)[0] == s[0]
  {
  }

  /** A new backslash-n can only be formed from a backslash right before an
      occurrence, so a cell without a doubled backslash comes out clean. */
  lemma {:induction false} CleanWithoutDoubledBackslash(s: string)
    requires !HasDoubledBackslash(s)
    ensures !ContainsBackslashN(RemoveBackslashN(s))
  {
    if s == [] {
    } else if BackslashNAt(s, 0) {
      assert !HasDoubledBackslash(s[2..]);
      CleanWithoutDoubledBackslash(s[2..]);
    } else {
      var t := s[1..];
      assert !HasDoubledBackslash(t);
      CleanWithoutDoubledBackslash(t);
      var rt := RemoveBackslashN(t);
      var r := [s[0]] + rt;
      assert RemoveBackslashN(s) == r;
      forall i | BackslashNAt(r, i) ensures false {
        if i == 0 {
          assert s[0] == '\\' && t != [];
          assert t[0] != '\\' && t[0] != 'n';
          FirstCharKept(t);
        } else {
          assert BackslashNAt(rt, i - 1);
        }
      }
    }
  }

  /** The cleanup applied to every `td` text: strip, then remove every
      backslash-n. The cleaned cell is never longer than the raw one. */
  function CleanCell(raw: string): (r: string)
    ensures |r| <= |raw|
  {
    RemoveBackslashN(Strip(raw))
  }

  /** A cell whose stripped text holds no backslash-n cleans to that text. */
  lemma CleanWithoutOccurrence(raw: string)
    requires !ContainsBackslashN(Strip(raw))
    ensures CleanCell(raw) == Strip(raw)
  {
    NoOccurrenceUnchanged(Strip(raw));
  }

  /** Removal runs after stripping, so it can expose leading whitespace. */
  lemma RemovalCanLeaveLeadingSpace()
    ensures CleanCell("\\n x") == " x"
  {
    var s := "\\n x";
    assert Strip(s) == s by {
      assert SkipSpace(s, 0) == 0;
      assert BackOverSpace(s, 0, |s|) == |s|;
    }
    assert RemoveBackslashN(" x") == " x" by { NoOccurrenceUnchanged(" x"); }
  }

  /** Removal can join a backslash and an `n` around an occurrence into a new
      occurrence, so the cleaned cell may still contain one. */
  lemma RemovalCanCreateOccurrence()
    ensures CleanCell("\\\\nn") == "\\n"
    ensures ContainsBackslashN(CleanCell("\\\\nn"))
  {
    var s := "\\\\nn";
    assert Strip(s) == s by {
      assert SkipSpace(s, 0) == 0;
      assert BackOverSpace(s, 0, |s|) == |s|;
    }
    RemovalJoins();
    assert CleanCell(s) == RemoveBackslashN(s);
    assert BackslashNAt("\\n", 0);
  }

  /** The removal step alone on that cell. */
  lemma RemovalJoins()
    ensures RemoveBackslashN("\\\\nn") == "\\n"
  {
    var s := "\\\\nn";
    assert !BackslashNAt(s, 0);
    assert s[1..] == "\\nn";
    assert BackslashNAt(s[1..], 0);
    assert s[1..][2..] == "n";
    assert RemoveBackslashN("n") == "n";
  }
}
