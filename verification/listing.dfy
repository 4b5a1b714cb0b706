/**
  The string handling the batch driver of run_ic_light_bg.py relies on: Python's ordering
  of `str` (for `sorted`), `str.endswith` and `str.strip()`.
*/
module Listing {

  /** Python's `a <= b` on `str`: lexicographic by code point, a prefix first. */
  predicate LexLe(a: string, b: string)
  {
    if a == [] then true
    else if b == [] then false
    else if a[0] != b[0] then a[0] < b[0]
    else LexLe(a[1..], b[1..])
  }

  /** `a` and `b` agree before position `i`, where `a` has the smaller code point. */
  predicate SmallerAt(a: string, b: string, i: nat)
  {
    i < |a| && i < |b| && a[..i] == b[..i] && a[i] < b[i]
  }

  /**
    The string order as usually defined: `a <= b` exactly when `a` is a prefix of `b` or,
    at the first position where they differ, `a` has the smaller code point.
  */
  lemma {:induction false} LexLeSpec(a: string, b: string)
    ensures LexLe(a, b) <==> (|a| <= |b| && a == b[..|a|]) || exists i: nat :: SmallerAt(a, b, i)
  {
    if a == [] {
    } else if b == [] {
      assert forall i: nat :: !SmallerAt(a, b, i);
    } else if a[0] != b[0] {
      if a[0] < b[0] {
        assert SmallerAt(a, b, 0);
      }
      assert |a| <= |b| ==> b[..|a|][0] == b[0];
    } else {
      var a', b' := a[1..], b[1..];
      LexLeSpec(a', b');
      assert a == [a[0]] + a' && b == [b[0]] + b';
      assert |a| <= |b| ==> (a == b[..|a|] <==> a' == b'[..|a'|]) by {
        if |a| <= |b| {
          assert b[..|a|] == [b[0]] + b'[..|a'|];
        }
      }
      forall i: nat | SmallerAt(a', b', i) ensures SmallerAt(a, b, i + 1) {
        assert a[..i + 1] == [a[0]] + a'[..i] && b[..i + 1] == [b[0]] + b'[..i];
      }
      forall i: nat | SmallerAt(a, b, i) ensures i > 0 && SmallerAt(a', b', i - 1) {
        assert a'[..i - 1] == a[1..i] == b[1..i] == b'[..i - 1];
      }
    }
  }

  lemma {:induction false} LexLeTotal(a: string, b: string)
    ensures LexLe(a, b) || LexLe(b, a)
  {
    if a != [] && b != [] && a[0] == b[0] {
      LexLeTotal(a[1..], b[1..]);
    }
  }

  lemma {:induction false} LexLeTransitive(a: string, b: string, c: string)
    requires LexLe(a, b) && LexLe(b, c)
    ensures LexLe(a, c)
  {
    if a != [] && b != [] && c != [] && a[0] == b[0] == c[0] {
      LexLeTransitive(a[1..], b[1..], c[1..]);
    }
  }

  lemma {:induction false} LexLeAntisymmetric(a: string, b: string)
    requires LexLe(a, b) && LexLe(b, a)
    ensures a == b
  {
    if a != [] && b != [] {
      LexLeAntisymmetric(a[1..], b[1..]);
      assert a == [a[0]] + a[1..];
      assert b == [b[0]] + b[1..];
    }
  }

  predicate Sorted(s: seq<string>)
  {
    forall i, j :: 0 <= i < j < |s| ==> LexLe(s[i], s[j])
  }

  /** A sorted list stays sorted when an element at most all of its elements is put in front. */
  lemma SortedCons(x: string, s: seq<string>)
    requires Sorted(s)
    requires forall i :: 0 <= i < |s| ==> LexLe(x, s[i])
    ensures Sorted([x] + s)
  {
    var r := [x] + s;
    forall i, j | 0 <= i < j < |r| ensures LexLe(r[i], r[j]) {
      if i > 0 {
        assert r[i] == s[i - 1] && r[j] == s[j - 1];
      } else {
        assert r[j] == s[j - 1];
      }
    }
  }

  /** An element at most the head of a sorted list is at most every element of it. */
  lemma BelowHead(x: string, s: seq<string>)
    requires Sorted(s) && s != [] && LexLe(x, s[0])
    ensures forall i :: 0 <= i < |s| ==> LexLe(x, s[i])
  {
    forall i | 0 <= i < |s| ensures LexLe(x, s[i]) {
      if i > 0 {
        LexLeTransitive(x, s[0], s[i]);
      }
    }
  }

  /** The head of a sorted list is at most everything in its tail with one larger element added. */
  lemma HeadBelowAll(s: seq<string>, x: string, t: seq<string>)
    requires Sorted(s) && s != [] && LexLe(s[0], x)
    requires multiset(t) == multiset(s[1..]) + multiset{x}
    ensures forall i :: 0 <= i < |t| ==> LexLe(s[0], t[i])
  {
    forall i | 0 <= i < |t| ensures LexLe(s[0], t[i]) {
      assert t[i] in multiset(t);
      if t[i] != x {
        assert t[i] in multiset(s[1..]);
        var k :| 0 <= k < |s[1..]| && s[1..][k] == t[i];
        assert s[k + 1] == t[i];
      }
    }
  }

  /** Inserts `x` into a sorted list before the first element it does not exceed. */
  function Insert(x: string, s: seq<string>): (r: seq<string>)
    requires Sorted(s)
    ensures Sorted(r)
    ensures multiset(r) == multiset(s) + multiset{x}
  {
    if s == [] then [x]
    else if LexLe(x, s[0]) then
      BelowHead(x, s);
      SortedCons(x, s);
      [x] + s
    else
      var tail := Insert(x, s[1..]);
      LexLeTotal(x, s[0]);
      HeadBelowAll(s, x, tail);
      SortedCons(s[0], tail);
      assert s == [s[0]] + s[1..];
      [s[0]] + tail
  }

  /** `sorted(names)`: the names in ascending order, each as often as it was given. */
  function SortNames(names: seq<string>): (r: seq<string>)
    ensures Sorted(r)
    ensures multiset(r) == multiset(names)
  {
    if names == [] then []
    else
      assert names == [names[0]] + names[1..];
      Insert(names[0], SortNames(names[1..]))
  }

  /** The head of a sorted list is at most every element of the list. */
  lemma HeadLeast(s: seq<string>, x: string)
    requires Sorted(s) && x in multiset(s)
    ensures LexLe(s[0], x)
  {
    var k :| 0 <= k < |s| && s[k] == x;
    if k == 0 {
      LexLeTotal(x, x);
    }
  }

  /** Dropping the head of a sorted list leaves it sorted. */
  lemma SortedTail(s: seq<string>)
    requires Sorted(s) && s != []
    ensures Sorted(s[1..])
  {
    forall i, j | 0 <= i < j < |s[1..]| ensures LexLe(s[1..][i], s[1..][j]) {
      assert s[1..][i] == s[i + 1] && s[1..][j] == s[j + 1];
    }
  }

  /** Two sorted lists with the same elements start with the same element. */
  lemma SameHead(a: seq<string>, b: seq<string>)
    requires Sorted(a) && Sorted(b) && multiset(a) == multiset(b) && a != []
    ensures b != [] && a[0] == b[0]
  {
    assert a[0] in multiset(a);
    assert b != [];
    assert b[0] in multiset(b);
    HeadLeast(b, a[0]);
    HeadLeast(a, b[0]);
    LexLeAntisymmetric(a[0], b[0]);
  }

  /** Two lists with the same elements and the same head have tails with the same elements. */
  lemma SameTails(a: seq<string>, b: seq<string>)
    requires a != [] && b != [] && a[0] == b[0] && multiset(a) == multiset(b)
    ensures multiset(a[1..]) == multiset(b[1..])
  {
    assert a == [a[0]] + a[1..] && b == [b[0]] + b[1..];
    assert multiset(a[1..]) == multiset(a) - multiset{a[0]};
    assert multiset(b[1..]) == multiset(b) - multiset{b[0]};
  }

  /**
    Under Python's string order a list has exactly one sorted arrangement: two sorted lists
    with the same elements are equal.
  */
  lemma {:induction false} SortedUnique(a: seq<string>, b: seq<string>)
    requires Sorted(a) && Sorted(b) && multiset(a) == multiset(b)
    ensures a == b
  {
    if a == [] {
      assert |b| == |multiset(b)| == 0;
    } else {
      SameHead(a, b);
      SameTails(a, b);
      SortedTail(a);
      SortedTail(b);
      SortedUnique(a[1..], b[1..]);
      assert a == [a[0]] + a[1..] && b == [b[0]] + b[1..];
    }
  }

  /** `sorted(names)` is the one sorted permutation of `names`. */
  lemma SortNamesUnique(names: seq<string>, s: seq<string>)
    requires Sorted(s) && multiset(s) == multiset(names)
    ensures SortNames(names) == s
  {
    SortedUnique(SortNames(names), s);
  }

  /** `name.endswith('.png')`. */
  predicate IsPng(name: string)
  {
    |name| >= 4 && name[|name| - 4..] == ".png"
  }

  /** A name ends with `.png` exactly when it is some stem followed by `.png`. */
  lemma IsPngSpec(name: string)
    ensures IsPng(name) <==> exists stem: string :: name == stem + ".png"
  {
    if IsPng(name) {
      assert name == name[..|name| - 4] + ".png";
    }
    forall stem: string | name == stem + ".png" ensures IsPng(name) {
      assert name[|name| - 4..] == ".png";
    }
  }

  /** The `.png` names of `names`, in their given order. */
  function KeepPng(names: seq<string>): (r: seq<string>)
    ensures forall i :: 0 <= i < |r| ==> IsPng(r[i])
  {
    if names == [] then []
    else if IsPng(names[0]) then [names[0]] + KeepPng(names[1..])
    else KeepPng(names[1..])
  }

  /** Filtering keeps every `.png` name as often as it occurs and drops every other name. */
  lemma {:induction false} KeepPngCount(names: seq<string>, x: string)
    ensures multiset(KeepPng(names))[x] == if IsPng(x) then multiset(names)[x] else 0
  {
    if names != [] {
      KeepPngCount(names[1..], x);
      assert names == [names[0]] + names[1..];
    }
  }

  /** Filtering a sorted list leaves it sorted. */
  lemma {:induction false} KeepPngSorted(names: seq<string>)
    requires Sorted(names)
    ensures Sorted(KeepPng(names))
  {
    if names != [] {
      var rest := KeepPng(names[1..]);
      KeepPngSorted(names[1..]);
      if IsPng(names[0]) {
        var r := KeepPng(names);
        forall j | 1 <= j < |r| ensures LexLe(r[0], r[j]) {
          assert r[j] in multiset(rest);
          KeepPngCount(names[1..], r[j]);
          assert r[j] in multiset(names[1..]);
          var k :| 0 <= k < |names[1..]| && names[1..][k] == r[j];
          assert names[k + 1] == r[j];
        }
      }
    }
  }

  /** `[f for f in sorted(os.listdir(dir)) if f.endswith('.png')]`, given the listing. */
  function PngFiles(listing: seq<string>): (r: seq<string>)
    ensures forall i :: 0 <= i < |r| ==> IsPng(r[i])
    ensures forall x :: multiset(r)[x] == if IsPng(x) then multiset(listing)[x] else 0
  {
    var sorted := SortNames(listing);
    forall x ensures multiset(KeepPng(sorted))[x] == if IsPng(x) then multiset(listing)[x] else 0 {
      KeepPngCount(sorted, x);
    }
    KeepPng(sorted)
  }

  /** The image list comes out in sorted file-name order. */
  lemma PngFilesSorted(listing: seq<string>)
    ensures Sorted(PngFiles(listing))
  {
    KeepPngSorted(SortNames(listing));
  }

  /** `str.isspace()` for a single character. */
  predicate IsSpace(ch: char)
  {
    var n := ch as int;
    (9 <= n <= 13) || (28 <= n <= 32) || n == 0x85 || n == 0xA0 || n == 0x1680
    || (0x2000 <= n <= 0x200A) || n == 0x2028 || n == 0x2029 || n == 0x202F
    || n == 0x205F || n == 0x3000
  }

  /** Removes leading whitespace. */
  function TrimStart(s: string): (r: string)
    ensures |r| <= |s| && r == s[|s| - |r|..]
    ensures forall k :: 0 <= k < |s| - |r| ==> IsSpace(s[k])
    ensures r == [] || !IsSpace(r[0])
  {
    if s != [] && IsSpace(s[0]) then TrimStart(s[1..]) else s
  }

  /** Removes trailing whitespace. */
  function TrimEnd(s: string): (r: string)
    ensures |r| <= |s| && r == s[..|r|]
    ensures forall k :: |r| <= k < |s| ==> IsSpace(s[k])
    ensures r == [] || !IsSpace(r[|r| - 1])
  {
    if s != [] && IsSpace(s[|s| - 1]) then TrimEnd(s[..|s| - 1]) else s
  }

  /** The number of leading whitespace characters. */
  function Lead(s: string): (n: nat)
    ensures n <= |s|
    ensures forall k :: 0 <= k < n ==> IsSpace(s[k])
    ensures n == |s| || !IsSpace(s[n])
  {
    |s| - |TrimStart(s)|
  }

  /**
    `line.strip()`: the line without its leading and trailing whitespace. The result is the
    slice of `s` after its `Lead(s)` leading blanks, followed in `s` only by blanks.
  */
  function Strip(s: string): (r: string)
    ensures r == [] || (!IsSpace(r[0]) && !IsSpace(r[|r| - 1]))
    ensures Lead(s) + |r| <= |s| && r == s[Lead(s)..Lead(s) + |r|]
    ensures forall k :: Lead(s) + |r| <= k < |s| ==> IsSpace(s[k])
  {
    var t := TrimStart(s);
    var r := TrimEnd(t);
    assert t == s[Lead(s)..];
    forall k | Lead(s) + |r| <= k < |s| ensures IsSpace(s[k]) {
      assert s[k] == t[k - Lead(s)];
    }
    r
  }

  /** `[line.strip() for line in file]`, given the file's lines. */
  function StripLines(lines: seq<string>): (r: seq<string>)
    ensures |r| == |lines|
    ensures forall i :: 0 <= i < |lines| ==> r[i] == Strip(lines[i])
  {
    seq(|lines|, i requires 0 <= i < |lines| => Strip(lines[i]))
  }

  /** Appending blanks does not change what trailing-whitespace removal keeps. */
  lemma {:induction false} TrimEndBlanks(s: string, blanks: string)
    requires forall k :: 0 <= k < |blanks| ==> IsSpace(blanks[k])
    ensures TrimEnd(s + blanks) == TrimEnd(s)
  {
    if blanks != [] {
      var shorter := blanks[..|blanks| - 1];
      var line := s + blanks;
      assert line[|line| - 1] == blanks[|blanks| - 1];
      assert line[..|line| - 1] == s + shorter;
      assert TrimEnd(line) == TrimEnd(s + shorter);
      TrimEndBlanks(s, shorter);
    } else {
      assert s + blanks == s;
    }
  }

  /**
    A label line loses its line terminator (`\n`, `\r\n` or any other run of blanks)
    and nothing else.
  */
  lemma StripLabelLine(text: string, terminator: string)
    requires text == [] || (!IsSpace(text[0]) && !IsSpace(text[|text| - 1]))
    requires forall k :: 0 <= k < |terminator| ==> IsSpace(terminator[k])
    ensures Strip(text + terminator) == text
  {
    var line := text + terminator;
    TrimEndBlanks(text, terminator);
    if text == [] {
      assert line == terminator;
      assert TrimStart(line) == [];
    } else {
      assert TrimStart(line) == line;
      assert TrimEnd(text) == text;
    }
  }
}
