/** Texts: comparison as Python's `<` on strings and SQLite's on TEXT columns, and `str.strip`, which here
    knows the ASCII blanks only. */
module Texts {
  import opened Ordering

  predicate LexLess(a: string, b: string) {
    if b == [] then false
    else if a == [] then true
    else if a[0] != b[0] then a[0] < b[0]
    else LexLess(a[1..], b[1..])
  }

  predicate LexLe(a: string, b: string) {
    a == b || LexLess(a, b)
  }

  lemma {:induction false} LexTrichotomy(a: string, b: string)
    ensures LexLess(a, b) || LexLess(b, a) || a == b
    ensures !(LexLess(a, b) && LexLess(b, a))
    ensures !LexLess(a, a)
  {
    if a != [] {
      LexTrichotomy(a[1..], a[1..]);
      if b != [] && a[0] == b[0] {
        LexTrichotomy(a[1..], b[1..]);
        if a[1..] == b[1..] {
          assert a == [a[0]] + a[1..] && b == [b[0]] + b[1..];
        }
      }
    }
  }

  lemma {:induction false} LexTransitive(a: string, b: string, c: string)
    requires LexLess(a, b) && LexLess(b, c)
    ensures LexLess(a, c)
  {
    if a != [] && a[0] == b[0] == c[0] {
      LexTransitive(a[1..], b[1..], c[1..]);
    }
  }

  /** Texts are totally ordered, so sorting distinct texts leaves no choice. */
  lemma LexIsTotalOrder()
    ensures TotalPreorder(LexLe)
    ensures forall a, b :: LexLe(a, b) && LexLe(b, a) ==> a == b
  {
    forall a, b ensures LexLe(a, b) || LexLe(b, a) ensures LexLe(a, b) && LexLe(b, a) ==> a == b {
      LexTrichotomy(a, b);
    }
    forall a, b, c | LexLe(a, b) && LexLe(b, c) ensures LexLe(a, c) {
      if a != b && b != c {
        LexTransitive(a, b, c);
      }
    }
  }

  /** Fixed-width parts are compared one after the other. */
  lemma {:induction false} LexConcat(a: string, x: string, b: string, y: string)
    requires |a| == |b|
    ensures LexLess(a + x, b + y) <==> LexLess(a, b) || (a == b && LexLess(x, y))
  {
    if a == [] {
      assert a + x == x && b + y == y;
    } else {
      assert (a + x)[1..] == a[1..] + x && (b + y)[1..] == b[1..] + y;
      if a[0] == b[0] {
        LexConcat(a[1..], x, b[1..], y);
        assert a == [a[0]] + a[1..] && b == [b[0]] + b[1..];
      }
    }
  }

  // ------------------------------------------------------------ blanks

  predicate Blank(c: char) {
    c == ' ' || '\t' <= c <= '\r' || '\U{1C}' <= c <= '\U{1F}'
  }

  /** `str.strip` */
  function Strip(s: string): (r: string)
    ensures |r| <= |s|
    ensures r != "" ==> !Blank(r[0]) && !Blank(r[|r| - 1])
    decreases |s|
  {
    if s == "" then s
    else if Blank(s[0]) then Strip(s[1..])
    else if Blank(s[|s| - 1]) then Strip(s[..|s| - 1])
    else s
  }

  /** A text without blanks at its ends is left as it is. */
  lemma {:induction false} StripKeeps(s: string)
    requires s != "" ==> !Blank(s[0]) && !Blank(s[|s| - 1])
    ensures Strip(s) == s
  {
  }

  lemma {:induction false} StripOnce(s: string)
    ensures Strip(Strip(s)) == Strip(s)
  {
    StripKeeps(Strip(s));
  }

  // ------------------------------------------------------------ what comparing and stripping mean

  /** One text is before another exactly when, after an equal part, it ends or has the smaller character. */
  lemma {:induction false} LexLessIff(a: string, b: string)
    ensures LexLess(a, b) <==> exists k :: DiffersAt(a, b, k)
  {
    if a != [] && b != [] {
      if a[0] == b[0] {
        LexLessIff(a[1..], b[1..]);
        if k :| DiffersAt(a[1..], b[1..], k) {
          TailDiffers(a, b, k);
        }
        if k :| DiffersAt(a, b, k) {
          assert k > 0;
          HeadDiffers(a, b, k);
        }
      } else {
        assert a[0] < b[0] ==> DiffersAt(a, b, 0);
      }
    } else if b != [] {
      assert DiffersAt(a, b, 0);
    }
  }

  predicate DiffersAt(a: string, b: string, k: int) {
    && 0 <= k <= |a| && k < |b| && a[..k] == b[..k]
    && (k == |a| || a[k] < b[k])
  }

  lemma TailDiffers(a: string, b: string, k: int)
    requires a != [] && b != [] && a[0] == b[0] && DiffersAt(a[1..], b[1..], k)
    ensures DiffersAt(a, b, k + 1)
  {
    assert a[..k + 1] == [a[0]] + a[1..][..k];
    assert b[..k + 1] == [b[0]] + b[1..][..k];
  }

  lemma HeadDiffers(a: string, b: string, k: int)
    requires a != [] && b != [] && a[0] == b[0] && k > 0 && DiffersAt(a, b, k)
    ensures DiffersAt(a[1..], b[1..], k - 1)
  {
    assert a[1..][..k - 1] == a[..k][1..];
    assert b[1..][..k - 1] == b[..k][1..];
  }

  predicate AllBlank(s: string) {
    forall i :: 0 <= i < |s| ==> Blank(s[i])
  }

  /** Stripping takes the blanks from both ends and nothing else. */
  lemma {:induction false} StripTakesBlanks(s: string) returns (before: string, after: string)
    ensures s == before + (Strip(s) + after)
    ensures AllBlank(before) && AllBlank(after)
    ensures Strip(s) != "" ==> !Blank(Strip(s)[0]) && !Blank(Strip(s)[|Strip(s)| - 1])
    decreases |s|
  {
    before, after := "", "";
    if s != "" {
      if Blank(s[0]) {
        before, after := StripTakesBlanks(s[1..]);
        assert s == [s[0]] + s[1..];
        before := [s[0]] + before;
      } else if Blank(s[|s| - 1]) {
        before, after := StripTakesBlanks(s[..|s| - 1]);
        assert s == s[..|s| - 1] + [s[|s| - 1]];
        after := after + [s[|s| - 1]];
      }
    }
  }

  /** The ASCII blanks are the space, the characters from tabulator to carriage return, and four separators. */
  lemma Blanks(c: char)
    ensures Blank(c) <==> c as int in {9, 10, 11, 12, 13, 28, 29, 30, 31, 32}
  {
  }
}
