/// Column and table names. Every fixed regular expression of the escaping
/// functions is written out as a hand-coded matcher:
///   `^(?P<w>(?:id)+)_`      -> `${w}id_`      (EscapeIdPrefix)
///   `_(?P<w>(?:in)+)_`      -> `_${w}in_`     (EscapeJoins with "in")
///   `_(?P<w>(?:lin)+)_`     -> `_${w}lin_`    (EscapeJoins with "lin")
///   `^(?P<w>(?:empty)+)$`   -> `${w}empty`
///   `^(?P<w>(?:list)+)$`    -> `${w}list`
///   `^_`                    -> `tech_`
/// The two Rust files that carry these functions hold identical copies; the
/// model defines each once.
module Naming {
  import opened Strings
  import opened Models

  // ---------------------------------------------------------------------
  // Greedy runs of a fixed word
  // ---------------------------------------------------------------------

  /** Length of the longest prefix of `s` made of whole copies of `w`:
      what a greedy `(?:w)+` consumes at the start of `s` (0 when it cannot match). */
  function LeadingRun(s: string, w: string): (n: nat)
    requires |w| > 0
    ensures n <= |s|
    decreases |s|
  {
    if StartsWith(s, w) then |w| + LeadingRun(s[|w|..], w) else 0
  }

  /** The whole of `s` is one or more copies of `w` (`^(?:w)+$`). */
  predicate IsWholeRun(s: string, w: string)
    requires |w| > 0
  {
    |s| > 0 && LeadingRun(s, w) == |s|
  }

  lemma {:induction false} RunNoUnderscore(x: string, w: string, i: nat)
    requires |w| > 0 && '_' !in w
    requires i < LeadingRun(x, w)
    ensures x[i] != '_'
    decreases |x|
  {
    if i >= |w| {
      RunNoUnderscore(x[|w|..], w, i - |w|);
    } else {
      assert x[i] == w[i];
    }
  }

  /** A run is maximal: what follows it does not start with another copy. */
  lemma {:induction false} RunIsMaximal(x: string, w: string)
    requires |w| > 0
    ensures !StartsWith(x[LeadingRun(x, w)..], w)
    decreases |x|
  {
    if StartsWith(x, w) {
      RunIsMaximal(x[|w|..], w);
      assert x[|w|..][LeadingRun(x[|w|..], w)..] == x[LeadingRun(x, w)..];
    }
  }

  /** A run followed by anything counts the run plus the run of what follows. */
  lemma {:induction false} RunThenRest(x: string, w: string, z: string)
    requires |w| > 0
    ensures LeadingRun(x[..LeadingRun(x, w)] + z, w) == LeadingRun(x, w) + LeadingRun(z, w)
    decreases |x|
  {
    var n := LeadingRun(x, w);
    if StartsWith(x, w) {
      var x' := x[|w|..];
      RunThenRest(x', w, z);
      var y := x[..n] + z;
      assert y == w + (x'[..LeadingRun(x', w)] + z);
      assert StartsWith(y, w);
      assert y[|w|..] == x'[..LeadingRun(x', w)] + z;
    } else {
      assert x[..n] + z == z;
    }
  }

  lemma RunOfWord(w: string, z: string)
    requires |w| > 0
    ensures LeadingRun(w + z, w) == |w| + LeadingRun(z, w)
  {
    assert StartsWith(w + z, w);
    assert (w + z)[|w|..] == z;
  }

  lemma RunOfUnderscore(w: string, z: string)
    requires |w| > 0 && w[0] != '_'
    ensures LeadingRun("_" + z, w) == 0
  {
    assert !StartsWith("_" + z, w) by {
      assert ("_" + z)[0] != w[0];
    }
  }

  /** A run is unchanged by appending one more copy in front or at its end. */
  lemma {:induction false} RunCommutes(x: string, w: string)
    requires |w| > 0
    ensures x[..LeadingRun(x, w)] + w == w + x[..LeadingRun(x, w)]
    decreases |x|
  {
    if StartsWith(x, w) {
      var x' := x[|w|..];
      RunCommutes(x', w);
      assert x[..LeadingRun(x, w)] == w + x'[..LeadingRun(x', w)];
    }
  }

  lemma {:induction false} RunOfRepeat(w: string, k: nat, z: string)
    requires |w| > 0
    ensures LeadingRun(Repeat(w, k) + z, w) == |Repeat(w, k)| + LeadingRun(z, w)
  {
    if k > 0 {
      RunOfRepeat(w, k - 1, z);
      assert Repeat(w, k) + z == w + (Repeat(w, k - 1) + z);
      RunOfWord(w, Repeat(w, k - 1) + z);
    } else {
      assert Repeat(w, k) + z == z;
    }
  }

  // ---------------------------------------------------------------------
  // escape_id_prefix: `^(?P<w>(?:id)+)_` -> `${w}id_`
  // ---------------------------------------------------------------------

  /** Length of the `(?:id)+` group when `s` matches `^(?:id)+_`. */
  function IdPrefixMatch(s: string): (m: Option<nat>)
    ensures m.Some? ==> 0 < m.value < |s| && m.value == LeadingRun(s, "id") && s[m.value] == '_'
  {
    var n := LeadingRun(s, "id");
    if n > 0 && n < |s| && s[n] == '_' then Some(n) else None
  }

  /** A name starting with `id_` always matches, with a group of one `id`. */
  lemma IdUnderscoreMatches(s: string)
    ensures StartsWith(s, "id_") ==> IdPrefixMatch(s) == Some(2)
  {
    if StartsWith(s, "id_") {
      assert StartsWith(s, "id");
      RunOfUnderscore("id", s[3..]);
      assert s[2..] == "_" + s[3..];
    }
  }

  /** Keeps column names clear of the `id_` prefix that the id columns use. */
  function EscapeIdPrefix(s: string): (r: string)
    ensures !StartsWith(r, "id_")
    ensures |r| >= |s|
  {
    IdUnderscoreMatches(s);
    match IdPrefixMatch(s)
    case Some(n) =>
      var r := s[..n] + "id_" + s[n + 1..];
      assert StartsWith(r, "id_") ==> false by {
        assert StartsWith(s, "id");
        if n > 2 {
          assert LeadingRun(s, "id") == 2 + LeadingRun(s[2..], "id");
          assert StartsWith(s[2..], "id");
          assert r[2] == s[2] == 'i';
        } else {
          assert r[2] == 'i';
        }
      }
      r
    case None =>
      s
  }

  /** Removes the `id` that EscapeIdPrefix inserted. */
  function UnescapeIdPrefix(t: string): string
  {
    match IdPrefixMatch(t)
    case Some(n) => if n >= 2 then t[..n - 2] + t[n..] else t
    case None => t
  }

  /** The `(?:id)+` group gains exactly one more `id`; the rest of the name is kept. */
  lemma EscapeIdPrefixAddsOneId(k: nat, rest: string)
    requires k >= 1
    ensures EscapeIdPrefix(Repeat("id", k) + "_" + rest) == Repeat("id", k + 1) + "_" + rest
  {
    var s := Repeat("id", k) + "_" + rest;
    RunOfRepeat("id", k, "_" + rest);
    RunOfUnderscore("id", rest);
    assert s == Repeat("id", k) + ("_" + rest);
    assert IdPrefixMatch(s) == Some(2 * k);
    RepeatSucc("id", k);
    assert s[..2 * k] == Repeat("id", k);
  }

  /** With one more `id` in front of the `_`, the group is one `id` longer. */
  lemma IdRunGrown(s: string, n: nat, a: string, rest: string, r: string)
    requires n == LeadingRun(s, "id") && a == s[..n] && r == a + ("id" + ("_" + rest))
    ensures LeadingRun(r, "id") == n + 2
  {
    RunThenRest(s, "id", "id" + ("_" + rest));
    RunOfWord("id", "_" + rest);
    RunOfUnderscore("id", rest);
  }

  lemma IdGrownSlices(a: string, rest: string, r: string)
    requires r == a + ("id" + ("_" + rest))
    ensures r[|a| + 2] == '_' && r[..|a|] + r[|a| + 2..] == a + ("_" + rest)
  {
    assert r[..|a|] == a;
    assert r[|a| + 2..] == "_" + rest;
  }

  lemma SplitAtUnderscore(s: string, n: nat)
    requires n < |s| && s[n] == '_'
    ensures s == s[..n] + ("_" + s[n + 1..])
  {
    assert s == s[..n] + s[n..];
    assert s[n..] == "_" + s[n + 1..];
  }

  /** Escaping the id prefix loses nothing: distinct names stay distinct. */
  lemma EscapeIdPrefixRoundTrip(s: string)
    ensures UnescapeIdPrefix(EscapeIdPrefix(s)) == s
  {
    match IdPrefixMatch(s)
    case Some(n) =>
      var a := s[..n];
      var rest := s[n + 1..];
      var r := EscapeIdPrefix(s);
      assert r == a + "id_" + rest;
      assert r == a + ("id" + ("_" + rest));
      IdRunGrown(s, n, a, rest, r);
      IdGrownSlices(a, rest, r);
      assert IdPrefixMatch(r) == Some(n + 2);
      SplitAtUnderscore(s, n);
    case None =>
  }

  lemma EscapeIdPrefixInjective(s: string, t: string)
    requires EscapeIdPrefix(s) == EscapeIdPrefix(t)
    ensures s == t
  {
    EscapeIdPrefixRoundTrip(s);
    EscapeIdPrefixRoundTrip(t);
  }

  // ---------------------------------------------------------------------
  // `_(?P<w>(?:w)+)_` -> `_${w}w_`, applied left to right without overlap
  // ---------------------------------------------------------------------

  /** Length of the `(?:w)+` group when `s` starts with a match of `_(?:w)+_`. */
  function JoinMatch(s: string, w: string): (m: Option<nat>)
    requires |w| > 0
    ensures m.Some? ==> 0 < m.value && m.value + 2 <= |s| && m.value == LeadingRun(s[1..], w)
    ensures m.Some? ==> s[0] == '_' && s[m.value + 1] == '_'
  {
    if |s| > 0 && s[0] == '_' then
      var n := LeadingRun(s[1..], w);
      if n > 0 && n + 1 < |s| && s[n + 1] == '_' then Some(n) else None
    else None
  }

  /** Every joiner `_w..w_` of `s` gets one more copy of `w`; all other characters are copied. */
  function EscapeJoins(s: string, w: string): (r: string)
    requires |w| > 0
    ensures |r| >= |s|
    decreases |s|
  {
    if |s| == 0 then ""
    else
      match JoinMatch(s, w)
      case Some(n) => "_" + s[1..n + 1] + w + "_" + EscapeJoins(s[n + 2..], w)
      case None => [s[0]] + EscapeJoins(s[1..], w)
  }

  /** Removes the copy of `w` that EscapeJoins added to each joiner. */
  function UnescapeJoins(t: string, w: string): string
    requires |w| > 0
    decreases |t|
  {
    if |t| == 0 then ""
    else
      match JoinMatch(t, w)
      case Some(n) =>
        if n >= |w| then "_" + t[1..n + 1 - |w|] + "_" + UnescapeJoins(t[n + 2..], w)
        else [t[0]] + UnescapeJoins(t[1..], w)
      case None => [t[0]] + UnescapeJoins(t[1..], w)
  }

  lemma EscapeJoinsFirst(s: string, w: string)
    requires |w| > 0 && w[0] != '_'
    requires |s| > 0 && s[0] != '_'
    ensures EscapeJoins(s, w) == [s[0]] + EscapeJoins(s[1..], w)
  {
  }

  /** Text without underscores is copied unchanged. */
  lemma {:induction false} EscapeJoinsCopies(p: string, y: string, w: string)
    requires |w| > 0 && '_' !in p
    ensures EscapeJoins(p + y, w) == p + EscapeJoins(y, w)
    decreases |p|
  {
    if |p| > 0 {
      assert (p + y)[1..] == p[1..] + y;
      assert (p + y)[0] == p[0];
      EscapeJoinsCopies(p[1..], y, w);
      assert p == [p[0]] + p[1..];
    } else {
      assert p + y == y;
    }
  }

  /** An escaped string starts with `_` exactly when the original does. */
  lemma EscapeJoinsHead(z: string, w: string)
    requires |w| > 0 && |z| > 0
    ensures |EscapeJoins(z, w)| > 0 && (EscapeJoins(z, w)[0] == '_' <==> z[0] == '_')
  {
  }

  /** Escaping does not change whether a string starts with an underscore-free prefix. */
  lemma {:induction false} EscapeJoinsStartsWith(z: string, p: string, w: string)
    requires |w| > 0 && '_' !in p
    ensures StartsWith(EscapeJoins(z, w), p) <==> StartsWith(z, p)
    decreases |p|
  {
    if |p| > 0 && |z| > 0 {
      if z[0] == '_' {
        EscapeJoinsHead(z, w);
        assert p[0] != '_';
      } else {
        var e := EscapeJoins(z, w);
        assert JoinMatch(z, w) == None;
        assert e == [z[0]] + EscapeJoins(z[1..], w);
        EscapeJoinsStartsWith(z[1..], p[1..], w);
        assert StartsWith(e, p) <==> (e[0] == p[0] && StartsWith(e[1..], p[1..]));
        assert StartsWith(z, p) <==> (z[0] == p[0] && StartsWith(z[1..], p[1..]));
      }
    }
  }

  /** Where the original has no joiner at its start, neither has its escaped tail. */
  lemma NoMatchKept(s: string, w: string)
    requires |w| > 0 && '_' !in w
    requires |s| > 0 && JoinMatch(s, w).None?
    ensures JoinMatch([s[0]] + EscapeJoins(s[1..], w), w).None?
  {
    var t := [s[0]] + EscapeJoins(s[1..], w);
    if s[0] == '_' {
      var x := s[1..];
      var n := LeadingRun(x, w);
      var y := x[n..];
      assert x == x[..n] + y;
      assert '_' !in x[..n] by {
        forall i | 0 <= i < n ensures x[..n][i] != '_' {
          RunNoUnderscore(x, w, i);
        }
      }
      EscapeJoinsCopies(x[..n], y, w);
      var ey := EscapeJoins(y, w);
      assert EscapeJoins(x, w) == x[..n] + ey;
      RunIsMaximal(x, w);
      EscapeJoinsStartsWith(y, w, w);
      assert LeadingRun(ey, w) == 0;
      RunThenRest(x, w, ey);
      assert t[1..] == EscapeJoins(x, w);
      assert LeadingRun(t[1..], w) == n;
      if |y| > 0 {
        EscapeJoinsHead(y, w);
        assert t[n + 1] == ey[0];
        assert s[n + 1] == y[0];
      } else {
        assert ey == "";
      }
    }
  }

  lemma JoinMatchIntro(s: string, w: string, n: nat)
    requires |w| > 0 && |s| > 0 && s[0] == '_' && LeadingRun(s[1..], w) == n && n > 0 && n + 1 < |s| && s[n + 1] == '_'
    ensures JoinMatch(s, w) == Some(n)
  {
  }

  /** The pieces of a joiner written out can be sliced back out of it. */
  lemma JoinerSlices(p: string, w: string, er: string, e: string)
    requires e == "_" + p + w + "_" + er
    ensures e[1..|p| + 1] == p && e[|p| + |w| + 2..] == er
  {
    assert e == "_" + p + w + "_" + er;
  }

  lemma GrownTail(p: string, w: string, er: string, e: string, tail: string)
    requires e == "_" + p + w + "_" + er && tail == w + ("_" + er)
    ensures e[1..] == p + tail && e[|p| + |w| + 1] == '_'
  {
    assert e == "_" + (p + tail);
  }

  lemma GrownRun(x: string, w: string, n: nat, p: string, er: string, tail: string)
    requires |w| > 0 && '_' !in w
    requires n == LeadingRun(x, w) && p == x[..n] && tail == w + ("_" + er)
    ensures LeadingRun(p + tail, w) == n + |w|
  {
    assert w[0] != '_';
    RunThenRest(x, w, tail);
    RunOfWord(w, "_" + er);
    RunOfUnderscore(w, er);
  }

  /** A joiner grown by one copy of `w` is again a joiner, with the longer group. */
  lemma JoinMatchGrown(x: string, w: string, n: nat, p: string, er: string, e: string)
    requires |w| > 0 && '_' !in w
    requires n == LeadingRun(x, w) && n > 0 && p == x[..n]
    requires e == "_" + p + w + "_" + er
    ensures JoinMatch(e, w) == Some(n + |w|)
  {
    var tail := w + ("_" + er);
    GrownTail(p, w, er, e, tail);
    GrownRun(x, w, n, p, er, tail);
    JoinMatchIntro(e, w, n + |w|);
  }

  lemma UnescapeJoinsUnfoldMatch(t: string, w: string, m: nat, mid: string, rest: string)
    requires |w| > 0 && |t| > 0 && JoinMatch(t, w) == Some(m) && m >= |w|
    requires mid == t[1..m + 1 - |w|] && rest == t[m + 2..]
    ensures UnescapeJoins(t, w) == "_" + mid + "_" + UnescapeJoins(rest, w)
  {
  }

  /** Undoing a joiner grown by one copy of `w` gives the original joiner back. */
  lemma UnescapeGrownJoiner(x: string, w: string, n: nat, p: string, er: string, e: string)
    requires |w| > 0 && '_' !in w
    requires n == LeadingRun(x, w) && n > 0 && p == x[..n]
    requires e == "_" + p + w + "_" + er
    ensures UnescapeJoins(e, w) == "_" + p + "_" + UnescapeJoins(er, w)
  {
    JoinMatchGrown(x, w, n, p, er, e);
    JoinerSlices(p, w, er, e);
    UnescapeJoinsUnfoldMatch(e, w, n + |w|, p, er);
  }

  /** After a joiner, the escaped string has a joiner one copy longer, and undoing it gives the original joiner back. */
  lemma EscapeJoinsAtMatch(s: string, w: string, n: nat)
    requires |w| > 0 && '_' !in w && |s| > 0
    requires JoinMatch(s, w) == Some(n)
    ensures UnescapeJoins(EscapeJoins(s, w), w) == "_" + s[1..n + 1] + "_" + UnescapeJoins(EscapeJoins(s[n + 2..], w), w)
  {
    var p := s[1..n + 1];
    var er := EscapeJoins(s[n + 2..], w);
    assert EscapeJoins(s, w) == "_" + p + w + "_" + er;
    assert p == s[1..][..n];
    UnescapeGrownJoiner(s[1..], w, n, p, er, EscapeJoins(s, w));
  }

  /** Where no joiner starts, the first character is copied through escaping and undoing. */
  lemma EscapeJoinsAtOther(s: string, w: string)
    requires |w| > 0 && '_' !in w && |s| > 0
    requires JoinMatch(s, w).None?
    ensures UnescapeJoins(EscapeJoins(s, w), w) == [s[0]] + UnescapeJoins(EscapeJoins(s[1..], w), w)
  {
    var t := [s[0]] + EscapeJoins(s[1..], w);
    assert EscapeJoins(s, w) == t;
    NoMatchKept(s, w);
    assert t[1..] == EscapeJoins(s[1..], w);
  }

  lemma SplitAtJoiner(s: string, n: nat)
    requires n + 2 <= |s| && s[0] == '_' && s[n + 1] == '_'
    ensures s == "_" + s[1..n + 1] + "_" + s[n + 2..]
  {
    var t := "_" + s[1..n + 1] + "_" + s[n + 2..];
    assert |t| == |s|;
    forall i | 0 <= i < |s| ensures s[i] == t[i] {
      if i == 0 || i == n + 1 {
      } else if i <= n {
        assert t[i] == s[1..n + 1][i - 1];
      } else {
        assert t[i] == s[n + 2..][i - n - 2];
      }
    }
  }

  /** Escaping joiners can be undone, so it never merges two distinct strings. */
  lemma {:induction false} EscapeJoinsRoundTrip(s: string, w: string)
    requires |w| > 0 && '_' !in w
    ensures UnescapeJoins(EscapeJoins(s, w), w) == s
    decreases |s|
  {
    if |s| > 0 {
      match JoinMatch(s, w)
      case Some(n) =>
        EscapeJoinsAtMatch(s, w, n);
        EscapeJoinsRoundTrip(s[n + 2..], w);
        SplitAtJoiner(s, n);
      case None =>
        EscapeJoinsAtOther(s, w);
        EscapeJoinsRoundTrip(s[1..], w);
        assert s == [s[0]] + s[1..];
    }
  }

  lemma EscapeJoinsInjective(s: string, t: string, w: string)
    requires |w| > 0 && '_' !in w
    requires EscapeJoins(s, w) == EscapeJoins(t, w)
    ensures s == t
  {
    EscapeJoinsRoundTrip(s, w);
    EscapeJoinsRoundTrip(t, w);
  }

  // ---------------------------------------------------------------------
  // escape_nested_key_element, nested_key_to_str / json_path_to_str
  // ---------------------------------------------------------------------

  /** One key of a nested path made safe to join with `_in_`. */
  function EscapeNestedKeyElement(s: string): (r: string)
    ensures |r| > 0 && r[0] != '_'
  {
    if s == "" then "empty"
    else
      var s1 := EscapeJoins(s, "in");
      var s2 := if IsWholeRun(s1, "empty") then s1 + "empty" else s1;
      var s3 := if IsWholeRun(s2, "list") then s2 + "list" else s2;
      if s3[0] == '_' then "tech_" + s3[1..] else s3
  }

  /** A key made only of `w` repeated is turned into one more repetition. */
  lemma WholeRunOfRepeat(w: string, k: nat)
    requires |w| > 0 && k >= 1
    ensures IsWholeRun(Repeat(w, k), w)
  {
    RunOfRepeat(w, k, "");
    assert Repeat(w, k) + "" == Repeat(w, k);
  }

  lemma NotWholeRun(s: string, w: string)
    requires |w| > 0 && |s| > 0 && s[0] != w[0]
    ensures !IsWholeRun(s, w)
  {
  }

  lemma RepeatNoUnderscore(w: string, k: nat)
    requires '_' !in w
    ensures '_' !in Repeat(w, k)
  {
    if k > 0 {
      RepeatNoUnderscore(w, k - 1);
    }
  }

  lemma EscapeJoinsPlain(s: string, w: string)
    requires |w| > 0 && '_' !in s
    ensures EscapeJoins(s, w) == s
  {
    EscapeJoinsCopies(s, "", w);
    assert s + "" == s;
  }

  /** `empty`, `emptyempty`, ... each gain one more `empty`. */
  lemma EscapeEmptyRun(k: nat)
    requires k >= 1
    ensures EscapeNestedKeyElement(Repeat("empty", k)) == Repeat("empty", k + 1)
  {
    var s := Repeat("empty", k);
    RepeatNoUnderscore("empty", k);
    EscapeJoinsPlain(s, "in");
    WholeRunOfRepeat("empty", k);
    RepeatSucc("empty", k);
    NotWholeRun(Repeat("empty", k + 1), "list");
  }

  /** `list`, `listlist`, ... each gain one more `list`. */
  lemma EscapeListRun(k: nat)
    requires k >= 1
    ensures EscapeNestedKeyElement(Repeat("list", k)) == Repeat("list", k + 1)
  {
    var s := Repeat("list", k);
    RepeatNoUnderscore("list", k);
    EscapeJoinsPlain(s, "in");
    NotWholeRun(s, "empty");
    WholeRunOfRepeat("list", k);
    RepeatSucc("list", k);
  }

  /** A leading underscore becomes `tech_`. */
  lemma EscapeLeadingUnderscore(rest: string)
    ensures StartsWith(EscapeNestedKeyElement("_" + rest), "tech_")
  {
    var s := "_" + rest;
    EscapeJoinsHead(s, "in");
    var s1 := EscapeJoins(s, "in");
    assert s1[0] == '_';
    NotWholeRun(s1, "empty");
    NotWholeRun(s1, "list");
  }

  /** `f` applied to every element, in order (`iter().map(f).collect()`). */
  function MapStrings(f: string -> string, names: seq<string>): (r: seq<string>)
    ensures |r| == |names|
    ensures forall i :: 0 <= i < |names| ==> r[i] == f(names[i])
  {
    if |names| == 0 then [] else [f(names[0])] + MapStrings(f, names[1..])
  }

  /**
   * The escaped keys, innermost first, joined by `_in_`, before the
   * id-prefix escape; the empty key is the top-level value, `list`.
   */
  function NestedKeyJoined(key: seq<string>): string
    decreases |key|
  {
    if |key| == 0 then "list"
    else if |key| == 1 then EscapeNestedKeyElement(key[0])
    else EscapeNestedKeyElement(key[|key| - 1]) + "_in_" + NestedKeyJoined(key[..|key| - 1])
  }

  /** Column name of a nested key (`nested_key_to_str`, `json_path_to_str`). */
  function NestedKeyToStr(key: seq<string>): string
  {
    EscapeIdPrefix(NestedKeyJoined(key))
  }

  /**
   * The joined key is what `nested_key_to_str` builds: the key reversed, each
   * element escaped, joined by `_in_`.
   */
  lemma {:induction false} NestedKeyJoinedIsReversedJoin(key: seq<string>)
    requires |key| > 0
    ensures NestedKeyJoined(key) == Join(MapStrings(EscapeNestedKeyElement, Reversed(key)), "_in_")
    decreases |key|
  {
    if |key| > 1 {
      var init := key[..|key| - 1];
      var x := key[|key| - 1];
      assert key == init + [x];
      ReversedAppend(init, x);
      var parts := MapStrings(EscapeNestedKeyElement, [x] + Reversed(init));
      assert parts[1..] == MapStrings(EscapeNestedKeyElement, Reversed(init)) by {
        assert ([x] + Reversed(init))[1..] == Reversed(init);
      }
      NestedKeyJoinedIsReversedJoin(init);
    }
  }

  /** The top-level value of a list element (empty key) is stored as column `list`. */
  lemma NestedKeyOfEmpty()
    ensures NestedKeyToStr([]) == "list"
  {
    assert IdPrefixMatch("list") == None by {
      assert "list"[1] != "id"[1];
    }
  }

  /** No column name of a value starts with `id_`. */
  lemma NestedKeyNotIdPrefixed(key: seq<string>)
    ensures !StartsWith(NestedKeyToStr(key), "id_")
  {
  }

  /** Column names of distinct joined keys are distinct. */
  lemma NestedKeyDistinct(a: seq<string>, b: seq<string>)
    requires NestedKeyJoined(a) != NestedKeyJoined(b)
    ensures NestedKeyToStr(a) != NestedKeyToStr(b)
  {
    if NestedKeyToStr(a) == NestedKeyToStr(b) {
      EscapeIdPrefixInjective(NestedKeyJoined(a), NestedKeyJoined(b));
    }
  }

  /** A one-key path names its single escaped key. */
  lemma NestedKeySingle(k: string)
    ensures NestedKeyToStr([k]) == EscapeIdPrefix(EscapeNestedKeyElement(k))
  {
  }

  /** Keys are listed innermost first: a deeper key goes in front, before `_in_`. */
  lemma NestedKeyDeeper(key: seq<string>, k: string)
    requires |key| > 0
    ensures NestedKeyJoined(key + [k]) == EscapeNestedKeyElement(k) + "_in_" + NestedKeyJoined(key)
  {
    assert (key + [k])[..|key|] == key;
  }

  // ---------------------------------------------------------------------
  // escape_table_path_element, table_path_to_str (of src/parser.rs)
  // ---------------------------------------------------------------------

  function EscapeTablePathElement(s: string): (r: string)
    ensures |r| >= |s|
  {
    EscapeJoins(s, "lin")
  }

  /** Table name: the escaped elements, in the given order, joined by `_lin_`. */
  function TablePathToStr(names: seq<string>): string
    decreases |names|
  {
    if |names| == 0 then ""
    else if |names| == 1 then EscapeTablePathElement(names[0])
    else EscapeTablePathElement(names[0]) + "_lin_" + TablePathToStr(names[1..])
  }

  /** The table name is what `table_path_to_str` builds: each element escaped, joined by `_lin_`. */
  lemma {:induction false} TablePathToStrIsJoin(names: seq<string>)
    ensures TablePathToStr(names) == Join(MapStrings(EscapeTablePathElement, names), "_lin_")
    decreases |names|
  {
    if |names| > 1 {
      TablePathToStrIsJoin(names[1..]);
      assert MapStrings(EscapeTablePathElement, names)[1..] == MapStrings(EscapeTablePathElement, names[1..]);
    }
  }

  lemma TablePathOfOne(n: string)
    ensures TablePathToStr([n]) == EscapeTablePathElement(n)
  {
  }

  /** The first element is written first, followed by `_lin_` and the name of the rest. */
  lemma TablePathCons(n: string, rest: seq<string>)
    requires |rest| > 0
    ensures TablePathToStr([n] + rest) == EscapeTablePathElement(n) + "_lin_" + TablePathToStr(rest)
  {
    assert ([n] + rest)[1..] == rest;
  }

  /** Appending an element appends `_lin_` and its escape: the order of the path is kept. */
  lemma {:induction false} TablePathSnoc(names: seq<string>, n: string)
    requires |names| > 0
    ensures TablePathToStr(names + [n]) == TablePathToStr(names) + "_lin_" + EscapeTablePathElement(n)
    decreases |names|
  {
    assert (names + [n])[0] == names[0];
    if |names| > 1 {
      assert (names + [n])[1..] == names[1..] + [n];
      TablePathSnoc(names[1..], n);
    } else {
      assert (names + [n])[1..] == [n];
    }
  }

  /** Names of nonempty paths whose first element is nonempty are nonempty. */
  lemma TablePathNonEmpty(names: seq<string>)
    requires |names| > 0 && |names[0]| > 0
    ensures |TablePathToStr(names)| > 0
  {
  }
}
