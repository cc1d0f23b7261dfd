/// The fixture lister (format_test_expected.py): the names of the expected
/// outputs under tests/resources, in sorted order, become one
/// `#[case("<name>")]` line each, the case names the integration test
/// (tests/test.rs) turns back into file names.
module FormatTestExpected {
  import opened Strings

  /** The suffix of an expected-output fixture. */
  const ExpectedSuffix: string := "-in-expected.json"

  /** A listed name the lister keeps. */
  predicate IsExpected(file: string)
  {
    EndsWith(file, ExpectedSuffix)
  }

  /** `file[:-17]`, the case name of a kept file. */
  function CaseName(file: string): (r: string)
    requires IsExpected(file)
    ensures r + ExpectedSuffix == file
  {
    file[..|file| - 17]
  }

  /** The fixture file of a case, as tests/test.rs builds it for the expected output. */
  function ExpectedFile(testCase: string): (r: string)
    ensures IsExpected(r)
  {
    testCase + ExpectedSuffix
  }

  /** Stripping the fixture file of a case gives the case back. */
  lemma CaseNameOfExpectedFile(testCase: string)
    ensures CaseName(ExpectedFile(testCase)) == testCase
  {
    assert ExpectedFile(testCase)[..|testCase|] == testCase;
  }

  /** The line printed for a case. */
  function CaseLine(name: string): string
  {
    "#[case(\"" + name + "\")]"
  }

  /** Different cases print different lines. */
  lemma CaseLineInjective(a: string, b: string)
    requires CaseLine(a) == CaseLine(b)
    ensures a == b
  {
    assert |a| == |b|;
    assert a == CaseLine(a)[8..8 + |a|];
  }

  /**
   * The order of Python's `sorted` on strings: code point by code point, a
   * proper prefix first.
   */
  predicate Below(a: string, b: string)
  {
    if |a| == 0 then true
    else if |b| == 0 then false
    else if a[0] != b[0] then a[0] < b[0]
    else Below(a[1..], b[1..])
  }

  lemma {:induction false} BelowReflexive(a: string)
    ensures Below(a, a)
  {
    if |a| > 0 {
      BelowReflexive(a[1..]);
    }
  }

  lemma {:induction false} BelowAntisymmetric(a: string, b: string)
    requires Below(a, b) && Below(b, a)
    ensures a == b
  {
    if |a| > 0 && |b| > 0 {
      BelowAntisymmetric(a[1..], b[1..]);
      assert a == [a[0]] + a[1..];
      assert b == [b[0]] + b[1..];
    }
  }

  lemma {:induction false} BelowTransitive(a: string, b: string, c: string)
    requires Below(a, b) && Below(b, c)
    ensures Below(a, c)
  {
    if |a| > 0 && |b| > 0 && |c| > 0 && a[0] == b[0] == c[0] {
      BelowTransitive(a[1..], b[1..], c[1..]);
    }
  }

  lemma {:induction false} BelowTotal(a: string, b: string)
    ensures Below(a, b) || Below(b, a)
  {
    if |a| > 0 && |b| > 0 && a[0] == b[0] {
      BelowTotal(a[1..], b[1..]);
    }
  }

  predicate Sorted(s: seq<string>)
  {
    forall i, j :: 0 <= i < j < |s| ==> Below(s[i], s[j])
  }

  /** `name` inserted into the sorted `s` before the first name above it. */
  function Insert(name: string, s: seq<string>): (r: seq<string>)
    requires Sorted(s)
    ensures Sorted(r) && multiset(r) == multiset(s) + multiset{name}
    decreases |s|
  {
    if |s| == 0 then [name]
    else if Below(name, s[0]) then
      InsertFirst(name, s);
      [name] + s
    else
      BelowTotal(name, s[0]);
      var rest := Insert(name, s[1..]);
      InsertAfterFirst(s[0], rest, name, s[1..]);
      assert s == [s[0]] + s[1..];
      [s[0]] + rest
  }

  lemma InsertFirst(name: string, s: seq<string>)
    requires Sorted(s) && |s| > 0 && Below(name, s[0])
    ensures Sorted([name] + s)
  {
    forall j | 0 < j < |s| + 1
      ensures Below(name, ([name] + s)[j])
    {
      if j > 1 {
        BelowTransitive(name, s[0], s[j - 1]);
      }
    }
  }

  lemma InsertAfterFirst(first: string, rest: seq<string>, name: string, tail: seq<string>)
    requires Sorted(rest) && multiset(rest) == multiset(tail) + multiset{name}
    requires Below(first, name) && forall x :: x in tail ==> Below(first, x)
    ensures Sorted([first] + rest)
  {
    forall j | 0 <= j < |rest|
      ensures Below(first, rest[j])
    {
      assert rest[j] in multiset(rest);
    }
  }

  /** Python's `sorted` on the directory listing. */
  function SortedNames(names: seq<string>): (r: seq<string>)
    ensures Sorted(r) && multiset(r) == multiset(names)
  {
    if |names| == 0 then []
    else
      assert names == [names[0]] + names[1..];
      Insert(names[0], SortedNames(names[1..]))
  }

  /** The lines printed for `files`, visited in the given order. */
  function CaseLines(files: seq<string>): (r: seq<string>)
  {
    if |files| == 0 then []
    else
      var last := files[|files| - 1];
      CaseLines(files[..|files| - 1]) + (if IsExpected(last) then [CaseLine(CaseName(last))] else [])
  }

  /**
   * The lister's loop: the names of `listing` in sorted order, names that
   * are not expected outputs skipped, one case line printed for each other
   * name. The output stream is modelled as the returned lines.
   */
  method FormatCases(listing: seq<string>) returns (lines: seq<string>)
    ensures lines == CaseLines(SortedNames(listing))
  {
    var files := SortedNames(listing);
    lines := [];
    var i := 0;
    while i < |files|
      invariant 0 <= i <= |files|
      invariant lines == CaseLines(files[..i])
    {
      var file := files[i];
      assert files[..i + 1][..i] == files[..i];
      i := i + 1;
      if !EndsWith(file, ExpectedSuffix) {
        continue;
      }
      lines := lines + [CaseLine(file[..|file| - 17])];
    }
    assert files[..i] == files;
  }

  /** The expected outputs among `files`, in their order. */
  function Kept(files: seq<string>): (r: seq<string>)
    ensures forall f :: f in r ==> f in files && IsExpected(f)
    ensures forall f :: f in files && IsExpected(f) ==> f in r
  {
    if |files| == 0 then []
    else
      var last := files[|files| - 1];
      Kept(files[..|files| - 1]) + (if IsExpected(last) then [last] else [])
  }

  /**
   * The printed lines are exactly the case lines of the kept names, one
   * each, in the order the names were visited.
   */
  lemma {:induction false} CaseLinesOfKept(files: seq<string>)
    ensures |CaseLines(files)| == |Kept(files)|
    ensures forall k :: 0 <= k < |Kept(files)| ==> CaseLines(files)[k] == CaseLine(CaseName(Kept(files)[k]))
  {
    if |files| > 0 {
      CaseLinesOfKept(files[..|files| - 1]);
    }
  }

  /** Keeping some names of a sorted sequence leaves them sorted. */
  lemma {:induction false} KeptSorted(files: seq<string>)
    requires Sorted(files)
    ensures Sorted(Kept(files))
  {
    if |files| > 0 {
      var init := files[..|files| - 1];
      assert Sorted(init);
      KeptSorted(init);
      var last := files[|files| - 1];
      forall x | x in Kept(init)
        ensures Below(x, last)
      {
        var i :| 0 <= i < |init| && init[i] == x;
      }
    }
  }

  /**
   * What the lister prints: one line per expected output of the listing,
   * the case name of that file, in sorted file order, and nothing for any
   * other name.
   */
  lemma PrintedLines(listing: seq<string>)
    ensures var files := Kept(SortedNames(listing));
      var lines := CaseLines(SortedNames(listing));
      && Sorted(files)
      && |lines| == |files|
      && (forall k :: 0 <= k < |lines| ==> lines[k] == CaseLine(CaseName(files[k])) && ExpectedFile(CaseName(files[k])) == files[k])
      && (forall f :: f in files <==> f in listing && IsExpected(f))
  {
    var sorted := SortedNames(listing);
    KeptSorted(sorted);
    CaseLinesOfKept(sorted);
    forall f
      ensures f in sorted <==> f in listing
    {
      assert f in sorted <==> f in multiset(sorted);
      assert f in listing <==> f in multiset(listing);
    }
  }

  /**
   * Each expected output of a case appears exactly once in the printed
   * lines when it appears once in the listing, so every fixture yields one
   * test case.
   */
  lemma {:induction false} CaseCount(files: seq<string>, testCase: string)
    ensures multiset(CaseLines(files))[CaseLine(testCase)] == multiset(files)[ExpectedFile(testCase)]
  {
    if |files| > 0 {
      var init, last := files[..|files| - 1], files[|files| - 1];
      CaseCount(init, testCase);
      assert files == init + [last];
      if IsExpected(last) {
        if CaseLine(CaseName(last)) == CaseLine(testCase) {
          CaseLineInjective(CaseName(last), testCase);
        } else if last == ExpectedFile(testCase) {
          CaseNameOfExpectedFile(testCase);
        }
      }
    }
  }
}
