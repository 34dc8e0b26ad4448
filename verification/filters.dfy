/** The two template filters of `filters.js`: `splitSentences`, which breaks a reflection into sentences for
    display, and `formatDate`, which renders a date through a token pattern. */
module Filters {
  import opened Wrappers
  import opened JsArray
  import opened JsString

  // ---------------------------------------------------------------------------------------------
  // splitSentences
  // ---------------------------------------------------------------------------------------------

  /** The characters of the class `[.!?]`. */
  predicate IsTerminator(c: char)
  {
    c == '.' || c == '!' || c == '?'
  }

  /** `replace(/\s+/g, ' ')`, scanning left to right; `afterSpace` says the previous character was
      white space, so that a run yields a single blank. */
  function CollapseFrom(s: string, afterSpace: bool): (r: string)
    ensures |r| <= |s|
    decreases |s|
  {
    if s == [] then []
    else if IsSpace(s[0]) then
      if afterSpace then CollapseFrom(s[1..], true) else [' '] + CollapseFrom(s[1..], true)
    else [s[0]] + CollapseFrom(s[1..], false)
  }

  /** Every run of white space replaced by one blank. */
  function Collapse(s: string): (r: string)
    ensures |r| <= |s| && Collapsed(r)
    ensures AllSpace(r) <==> AllSpace(s)
  {
    CollapseShape(s, false);
    CollapseAllSpace(s, false);
    CollapseFrom(s, false)
  }

  /** The shape `replace(/\s+/g, ' ')` leaves: no white space but the blank, and never two blanks in a row. */
  predicate Collapsed(s: string)
  {
    forall i :: 0 <= i < |s| && IsSpace(s[i]) ==> s[i] == ' ' && (i + 1 < |s| ==> !IsSpace(s[i + 1]))
  }

  /** The number of leading characters outside `[.!?]`. */
  function RunEnd(t: string): (n: nat)
    ensures n <= |t|
    ensures forall i :: 0 <= i < n ==> !IsTerminator(t[i])
    ensures n < |t| ==> IsTerminator(t[n])
  {
    if t == [] || IsTerminator(t[0]) then 0 else RunEnd(t[1..]) + 1
  }

  /** Where a match starting at the head of `t` ends: after the run and its terminator, if any. */
  function MatchEnd(t: string): (e: nat)
    ensures e <= |t|
  {
    if RunEnd(t) < |t| then RunEnd(t) + 1 else RunEnd(t)
  }

  /** `t.match(/[^.!?]+[.!?]?/g)`, with `null` as the empty sequence: a terminator where a match would
      start is skipped; otherwise the match is the longest run of other characters and the terminator
      that ends it, if any. */
  function Matches(t: string): (r: seq<string>)
    ensures |r| <= |t|
    ensures forall m :: m in r ==> m != []
    decreases |t|
  {
    if t == [] then []
    else if IsTerminator(t[0]) then Matches(t[1..])
    else [t[..MatchEnd(t)]] + Matches(t[MatchEnd(t)..])
  }

  /** `parts.map(s => s.trim())`. */
  function TrimEach(parts: seq<string>): (r: seq<string>)
    ensures |r| == |parts| && forall i :: 0 <= i < |parts| ==> r[i] == Trim(parts[i])
  {
    seq(|parts|, i requires 0 <= i < |parts| => Trim(parts[i]))
  }

  /** The text that is split: white space runs collapsed, then trimmed. */
  function SentenceText(value: string): string
  {
    Trim(Collapse(value))
  }

  /** `splitSentences`: nothing for an empty or blank value; otherwise the matches of the collapsed and
      trimmed text (or the whole text when nothing matches), each trimmed, the empty ones dropped. */
  function SplitSentences(value: string): (r: seq<string>)
    ensures value == [] ==> r == []
    ensures forall p :: p in r ==> p != []
  {
    if value == [] then []
    else
      var text := SentenceText(value);
      if text == [] then []
      else
        var parts := if Matches(text) == [] then [text] else Matches(text);
        Filter(TrimEach(parts), (s: string) => s != [])
  }

  predicate AllSpace(s: string)
  {
    forall i :: 0 <= i < |s| ==> IsSpace(s[i])
  }

  /** Collapsing neither creates nor removes every non-blank character: the result is blank exactly when
      the input is. */
  lemma {:induction false} CollapseAllSpace(s: string, afterSpace: bool)
    ensures AllSpace(CollapseFrom(s, afterSpace)) <==> AllSpace(s)
    decreases |s|
  {
    if s != [] {
      CollapseAllSpace(s[1..], IsSpace(s[0]));
      AllSpaceCons(s[0], s[1..]);
      assert [s[0]] + s[1..] == s;
      var rest := CollapseFrom(s[1..], IsSpace(s[0]));
      if !IsSpace(s[0]) {
        AllSpaceCons(s[0], rest);
      } else if !afterSpace {
        AllSpaceCons(' ', rest);
      }
    }
  }

  lemma AllSpaceCons(c: char, t: string)
    ensures AllSpace([c] + t) <==> IsSpace(c) && AllSpace(t)
  {
    var u := [c] + t;
    assert u[0] == c;
    if IsSpace(c) && AllSpace(t) {
      forall i | 0 < i < |u| ensures IsSpace(u[i]) {
        assert u[i] == t[i - 1];
      }
    }
    if AllSpace(u) {
      forall i | 0 <= i < |t| ensures IsSpace(t[i]) {
        assert t[i] == u[i + 1];
      }
    }
  }

  /** What the collapse produces is in the collapsed shape, and after a blank it starts with a
      character that is not white space. */
  lemma {:induction false} CollapseShape(s: string, afterSpace: bool)
    ensures Collapsed(CollapseFrom(s, afterSpace))
    ensures afterSpace && CollapseFrom(s, afterSpace) != [] ==> !IsSpace(CollapseFrom(s, afterSpace)[0])
    decreases |s|
  {
    if s != [] {
      CollapseShape(s[1..], IsSpace(s[0]));
      var rest := CollapseFrom(s[1..], IsSpace(s[0]));
      var r := CollapseFrom(s, afterSpace);
      if !IsSpace(s[0]) {
        assert r == [s[0]] + rest;
        forall i | 0 <= i < |r| && IsSpace(r[i]) ensures r[i] == ' ' && (i + 1 < |r| ==> !IsSpace(r[i + 1])) {
          assert i > 0;
          assert r[i] == rest[i - 1];
          if i + 1 < |r| {
            assert r[i + 1] == rest[i];
          }
        }
      } else if !afterSpace {
        assert r == [' '] + rest;
        forall i | 0 <= i < |r| && IsSpace(r[i]) ensures r[i] == ' ' && (i + 1 < |r| ==> !IsSpace(r[i + 1])) {
          if i > 0 {
            assert r[i] == rest[i - 1];
            if i + 1 < |r| {
              assert r[i + 1] == rest[i];
            }
          }
        }
      }
    }
  }

  /** The collapsed shape holds of every slice. */
  lemma CollapsedSlice(s: string, a: nat, b: nat)
    requires Collapsed(s) && a <= b <= |s|
    ensures Collapsed(s[a..b])
  {
    var t := s[a..b];
    forall i | 0 <= i < |t| && IsSpace(t[i]) ensures t[i] == ' ' && (i + 1 < |t| ==> !IsSpace(t[i + 1])) {
      assert t[i] == s[a + i];
      if i + 1 < |t| {
        assert t[i + 1] == s[a + i + 1];
      }
    }
  }

  /** Every match is a non-empty slice of the text that starts outside `[.!?]` and holds a terminator
      at most at its end; over collapsed text every match is collapsed too. */
  lemma {:induction false} MatchesShape(t: string)
    ensures forall m :: m in Matches(t) ==>
      m != [] && !IsTerminator(m[0]) && forall i :: 0 <= i < |m| - 1 ==> !IsTerminator(m[i])
    ensures Collapsed(t) ==> forall m :: m in Matches(t) ==> Collapsed(m)
    decreases |t|
  {
    if t != [] {
      if IsTerminator(t[0]) {
        MatchesShape(t[1..]);
        if Collapsed(t) {
          CollapsedSlice(t, 1, |t|);
        }
      } else {
        var n := RunEnd(t);
        var e := MatchEnd(t);
        MatchesShape(t[e..]);
        if Collapsed(t) {
          CollapsedSlice(t, 0, e);
          CollapsedSlice(t, e, |t|);
        }
      }
    }
  }

  /** Nothing matches exactly when the text is made of terminators only. */
  lemma {:induction false} MatchesEmpty(t: string)
    ensures Matches(t) == [] <==> forall i :: 0 <= i < |t| ==> IsTerminator(t[i])
    decreases |t|
  {
    if t != [] && IsTerminator(t[0]) {
      MatchesEmpty(t[1..]);
      assert forall i :: 0 < i < |t| ==> t[i] == t[1..][i - 1];
    }
  }

  /** Over text without blanks at its ends, no match is blank: a match that ends in a terminator holds
      it, and one that does not reaches the end of the text. */
  lemma {:induction false} MatchesNotBlank(t: string)
    requires t == [] || !IsSpace(t[|t| - 1])
    ensures forall m :: m in Matches(t) ==> exists i :: 0 <= i < |m| && !IsSpace(m[i])
    decreases |t|
  {
    if t != [] {
      if IsTerminator(t[0]) {
        MatchesNotBlank(t[1..]);
      } else {
        var n := RunEnd(t);
        var e := MatchEnd(t);
        var m := t[..e];
        assert m[e - 1] == t[e - 1];
        assert t[e..] == [] || t[e..][|t[e..]| - 1] == t[|t| - 1];
        MatchesNotBlank(t[e..]);
      }
    }
  }

  /** The text `t` without its stray terminators: those at its start (when `lead`) or right after
      another terminator. */
  function Unstrayed(t: string, lead: bool): (r: string)
    decreases |t|
  {
    if t == [] then []
    else if IsTerminator(t[0]) && lead then Unstrayed(t[1..], true)
    else [t[0]] + Unstrayed(t[1..], IsTerminator(t[0]))
  }

  function Concat(parts: seq<string>): string
  {
    if parts == [] then [] else parts[0] + Concat(parts[1..])
  }

  /** Across a run of characters outside `[.!?]` the stray-terminator removal copies the run. */
  lemma {:induction false} UnstrayedRun(t: string, lead: bool, k: nat)
    requires 1 <= k <= |t| && forall i :: 0 <= i < k ==> !IsTerminator(t[i])
    ensures Unstrayed(t, lead) == t[..k] + Unstrayed(t[k..], false)
    decreases k
  {
    if k > 1 {
      UnstrayedRun(t[1..], false, k - 1);
      assert t[1..][..k - 1] == t[1..k];
      assert t[1..][k - 1..] == t[k..];
      assert t[..k] == [t[0]] + t[1..k];
    }
  }

  /** A terminator right after a run is kept, and the text after it starts as if at a sentence start. */
  lemma UnstrayedStop(t: string, n: nat)
    requires n < |t| && IsTerminator(t[n])
    ensures t[..n] + Unstrayed(t[n..], false) == t[..n + 1] + Unstrayed(t[n + 1..], true)
  {
    assert t[n..][1..] == t[n + 1..];
    assert t[..n + 1] == t[..n] + [t[n]];
  }

  /** Over one match the stray-terminator removal copies the match. */
  lemma UnstrayedMatch(t: string)
    requires t != [] && !IsTerminator(t[0])
    ensures Unstrayed(t, true) == t[..MatchEnd(t)] + Unstrayed(t[MatchEnd(t)..], true)
  {
    var n := RunEnd(t);
    UnstrayedRun(t, true, n);
    if n < |t| {
      UnstrayedStop(t, n);
    } else {
      assert t[n..] == [];
    }
  }

  /** The matches, laid end to end, give back the whole text but for its stray terminators. */
  lemma {:induction false} MatchesCoverText(t: string)
    ensures Concat(Matches(t)) == Unstrayed(t, true)
    decreases |t|
  {
    if t != [] {
      if IsTerminator(t[0]) {
        MatchesCoverText(t[1..]);
      } else {
        var e := MatchEnd(t);
        MatchesCoverText(t[e..]);
        UnstrayedMatch(t);
        assert Matches(t)[1..] == Matches(t[e..]);
      }
    }
  }

  /** A trimmed string is a slice that keeps the collapsed shape, and a terminator only at its end. */
  lemma TrimKeepsShape(m: string)
    requires Collapsed(m) && forall i :: 0 <= i < |m| - 1 ==> !IsTerminator(m[i])
    ensures Collapsed(Trim(m))
    ensures forall i :: 0 <= i < |Trim(m)| - 1 ==> !IsTerminator(Trim(m)[i])
  {
    var a, b := TrimSlice(m);
    CollapsedSlice(m, a, b);
    var t := Trim(m);
    forall i | 0 <= i < |t| - 1 ensures !IsTerminator(t[i]) {
      assert t[i] == m[a + i];
    }
  }

  /** `splitSentences` yields nothing exactly when the value is empty or blank. */
  lemma SplitEmptyIffBlank(value: string)
    ensures SplitSentences(value) == [] <==> IsBlank(value)
  {
    var c := Collapse(value);
    CollapseAllSpace(value, false);
    BlankIffAllSpace(value);
    BlankIffAllSpace(c);
    var text := SentenceText(value);
    if value != [] && text != [] {
      var parts := if Matches(text) == [] then [text] else Matches(text);
      MatchesNotBlank(text);
      BlankIffAllSpace(parts[0]);
      var first := Trim(parts[0]);
      assert first != [];
      assert TrimEach(parts)[0] == first;
      FilterAppend([first], TrimEach(parts)[1..], (s: string) => s != []);
      assert TrimEach(parts) == [first] + TrimEach(parts)[1..];
    }
  }

  /** Every sentence is non-empty, has no white space at either end, holds no white space but single
      blanks, and, unless the text is terminators only, holds a terminator at most as its last
      character; a text of terminators only is returned whole. */
  lemma SplitPieces(value: string)
    ensures forall p :: p in SplitSentences(value) ==>
      && p != [] && !IsSpace(p[0]) && !IsSpace(p[|p| - 1]) && Collapsed(p)
      && (Matches(SentenceText(value)) != [] ==> forall i :: 0 <= i < |p| - 1 ==> !IsTerminator(p[i]))
    ensures value != [] && SentenceText(value) != [] && Matches(SentenceText(value)) == [] ==>
      SplitSentences(value) == [SentenceText(value)]
  {
    if value != [] && SentenceText(value) != [] {
      forall p | p in SplitSentences(value)
        ensures p != [] && !IsSpace(p[0]) && !IsSpace(p[|p| - 1]) && Collapsed(p)
        ensures Matches(SentenceText(value)) != [] ==> forall i :: 0 <= i < |p| - 1 ==> !IsTerminator(p[i])
      {
        SplitPiece(value, p);
      }
      if Matches(SentenceText(value)) == [] {
        SplitUnmatched(value);
      }
    }
  }

  /** The text that is split holds no white space but single blanks. */
  lemma SentenceTextCollapsed(value: string)
    ensures Collapsed(SentenceText(value))
  {
    var c := Collapse(value);
    CollapseShape(value, false);
    var a, b := TrimSlice(c);
    CollapsedSlice(c, a, b);
  }

  /** One sentence of the split: trimmed from a collapsed match, or from the whole text. */
  lemma SplitPiece(value: string, p: string)
    requires value != [] && SentenceText(value) != [] && p in SplitSentences(value)
    ensures p != [] && !IsSpace(p[0]) && !IsSpace(p[|p| - 1]) && Collapsed(p)
    ensures Matches(SentenceText(value)) != [] ==> forall i :: 0 <= i < |p| - 1 ==> !IsTerminator(p[i])
  {
    var text := SentenceText(value);
    SentenceTextCollapsed(value);
    if Matches(text) != [] {
      SplitMatchedPiece(text, p);
    } else {
      assert p in TrimEach([text]);
      TrimOfTrimmed(text);
    }
  }

  /** A sentence trimmed from a match of collapsed text. */
  lemma SplitMatchedPiece(text: string, p: string)
    requires Collapsed(text) && p in Filter(TrimEach(Matches(text)), (s: string) => s != [])
    ensures p != [] && !IsSpace(p[0]) && !IsSpace(p[|p| - 1]) && Collapsed(p)
    ensures forall i :: 0 <= i < |p| - 1 ==> !IsTerminator(p[i])
  {
    var parts := Matches(text);
    assert p in TrimEach(parts);
    var k :| 0 <= k < |parts| && p == Trim(parts[k]);
    MatchShape(text, parts[k]);
    TrimKeepsShape(parts[k]);
  }

  /** One match of collapsed text is collapsed and holds a terminator at most as its last character. */
  lemma MatchShape(t: string, m: string)
    requires Collapsed(t) && m in Matches(t)
    ensures Collapsed(m) && forall i :: 0 <= i < |m| - 1 ==> !IsTerminator(m[i])
  {
    MatchesShape(t);
  }

  /** Text with no match is one sentence, as it stands. */
  lemma SplitUnmatched(value: string)
    requires value != [] && SentenceText(value) != [] && Matches(SentenceText(value)) == []
    ensures SplitSentences(value) == [SentenceText(value)]
  {
    var text := SentenceText(value);
    TrimOfTrimmed(text);
    assert TrimEach([text]) == [text];
    assert Filter([text][1..], (s: string) => s != []) == [];
  }

  // ---------------------------------------------------------------------------------------------
  // formatDate
  // ---------------------------------------------------------------------------------------------

  /** `s.replace(/pat/g, rep)` for a pattern without special characters and a replacement without `$`:
      every occurrence, found left to right without overlap, is replaced. */
  function ReplaceAll(s: string, pat: string, rep: string): (r: string)
    requires pat != []
    ensures rep == pat ==> r == s
    decreases |s|
  {
    if |s| < |pat| then s
    else if s[..|pat|] == pat then
      assert s == s[..|pat|] + s[|pat|..];
      rep + ReplaceAll(s[|pat|..], pat, rep)
    else [s[0]] + ReplaceAll(s[1..], pat, rep)
  }

  /** No character of `a` occurs in `b`. */
  predicate Disjoint(a: string, b: string)
  {
    forall i :: 0 <= i < |a| ==> a[i] !in b
  }

  /** An occurrence past the end of `lead` is an occurrence in `rest`. */
  lemma OccursInRest(lead: string, rest: string, q: string, i: int)
    requires OccursAt(lead + rest, q, i) && i >= |lead|
    ensures OccursAt(rest, q, i - |lead|)
  {
    assert (lead + rest)[i..i + |q|] == rest[i - |lead|..i - |lead| + |q|];
  }

  /** An occurrence in a suffix is an occurrence in the whole. */
  lemma OccursInWhole(s: string, k: nat, q: string, i: int)
    requires k <= |s| && OccursAt(s[k..], q, i)
    ensures OccursAt(s, q, k + i)
  {
    assert s[k..][i..i + |q|] == s[k + i..k + i + |q|];
  }

  /** `lead + rest` holds no `q` when `rest` holds none and none starts inside `lead`. */
  lemma JoinWithout(lead: string, rest: string, q: string)
    requires !Includes(rest, q)
    requires forall i :: 0 <= i < |lead| ==> !OccursAt(lead + rest, q, i)
    ensures !Includes(lead + rest, q)
  {
    forall i | OccursAt(lead + rest, q, i) ensures false {
      OccursInRest(lead, rest, q, i);
    }
  }

  /** Without an occurrence the replacement changes nothing. */
  lemma {:induction false} ReplaceAllNoMatch(s: string, pat: string, rep: string)
    requires pat != [] && !Includes(s, pat)
    ensures ReplaceAll(s, pat, rep) == s
    decreases |s|
  {
    if |s| >= |pat| {
      assert !OccursAt(s, pat, 0);
      ReplaceAllNoMatch(s[1..], pat, rep);
    }
  }

  /** A prefix of the result made of characters that are not in the replacement was copied from the
      input. */
  lemma {:induction false} PrefixCopied(s: string, pat: string, rep: string, m: nat)
    requires pat != [] && rep != [] && m <= |ReplaceAll(s, pat, rep)|
    requires Disjoint(ReplaceAll(s, pat, rep)[..m], rep)
    ensures m <= |s| && ReplaceAll(s, pat, rep)[..m] == s[..m]
    decreases |s|
  {
    var r := ReplaceAll(s, pat, rep);
    if m > 0 && |s| >= |pat| {
      assert r[0] !in rep by {
        assert r[..m][0] == r[0];
      }
      if s[..|pat|] == pat {
        assert false;
      } else {
        var rest := ReplaceAll(s[1..], pat, rep);
        assert r == [s[0]] + rest;
        assert Disjoint(rest[..m - 1], rep) by {
          forall i | 0 <= i < m - 1 ensures rest[i] !in rep {
            assert rest[i] == r[..m][i + 1];
          }
        }
        PrefixCopied(s[1..], pat, rep, m - 1);
        assert r[..m] == [s[0]] + rest[..m - 1];
        assert s[..m] == [s[0]] + s[1..][..m - 1];
      }
    }
  }

  /** An occurrence of `q` at the start of the result, when `q` shares no character with the
      replacement, was already at the start of the input. */
  lemma StartCopied(s: string, pat: string, rep: string, q: string)
    requires pat != [] && rep != [] && Disjoint(rep, q) && OccursAt(ReplaceAll(s, pat, rep), q, 0)
    ensures OccursAt(s, q, 0)
  {
    var r := ReplaceAll(s, pat, rep);
    assert Disjoint(r[..|q|], rep) by {
      forall a | 0 <= a < |q| ensures r[..|q|][a] !in rep {
        assert r[..|q|][a] == q[a];
      }
    }
    PrefixCopied(s, pat, rep, |q|);
  }

  /** When the replacement is non-empty and shares no character with `q`, a text without `q` gives a
      result without `q`; for `q` the pattern itself, no occurrence survives in any text. */
  lemma {:induction false} ReplaceAllWithout(s: string, pat: string, rep: string, q: string)
    requires pat != [] && rep != [] && q != [] && Disjoint(rep, q)
    requires q == pat || !Includes(s, q)
    ensures !Includes(ReplaceAll(s, pat, rep), q)
    decreases |s|
  {
    var r := ReplaceAll(s, pat, rep);
    if |s| < |pat| {
      if q != pat {
        ReplaceAllNoMatch(s, pat, rep);
      }
    } else if s[..|pat|] == pat {
      var tail := s[|pat|..];
      if Includes(tail, q) {
        var i :| OccursAt(tail, q, i);
        OccursInWhole(s, |pat|, q, i);
      }
      ReplaceAllWithout(tail, pat, rep, q);
      forall i | 0 <= i < |rep| ensures !OccursAt(r, q, i) {
        assert r[i] == rep[i];
      }
      JoinWithout(rep, ReplaceAll(tail, pat, rep), q);
    } else {
      var tail := s[1..];
      if Includes(tail, q) {
        var i :| OccursAt(tail, q, i);
        OccursInWhole(s, 1, q, i);
      }
      ReplaceAllWithout(tail, pat, rep, q);
      if OccursAt(r, q, 0) {
        StartCopied(s, pat, rep, q);
      }
      JoinWithout([s[0]], ReplaceAll(tail, pat, rep), q);
    }
  }

  /** Replacements applied one after another, in order. */
  function ReplaceEach(s: string, steps: seq<(string, string)>): string
    requires forall k :: 0 <= k < |steps| ==> steps[k].0 != []
    decreases |steps|
  {
    if steps == [] then s else ReplaceEach(ReplaceAll(s, steps[0].0, steps[0].1), steps[1..])
  }

  /** Every replacement is non-empty, every pattern is non-empty, and no replacement shares a character
      with any pattern of the sequence. */
  predicate Separate(steps: seq<(string, string)>)
  {
    && (forall k :: 0 <= k < |steps| ==> steps[k].0 != [] && steps[k].1 != [])
    && (forall k, j :: 0 <= k < |steps| && 0 <= j < |steps| ==> Disjoint(steps[k].1, steps[j].0))
  }

  /** Separate replacements keep out a pattern of theirs that is absent, and leave no occurrence of any
      of their patterns. */
  lemma {:induction false} ReplaceEachWithout(s: string, steps: seq<(string, string)>, q: string)
    requires Separate(steps) && q != []
    requires (exists k :: 0 <= k < |steps| && steps[k].0 == q) || !Includes(s, q)
    requires forall k :: 0 <= k < |steps| ==> Disjoint(steps[k].1, q)
    ensures !Includes(ReplaceEach(s, steps), q)
    decreases |steps|
  {
    if steps != [] {
      var next := ReplaceAll(s, steps[0].0, steps[0].1);
      assert Separate(steps[1..]) by {
        forall k, j | 0 <= k < |steps| - 1 && 0 <= j < |steps| - 1 ensures Disjoint(steps[1..][k].1, steps[1..][j].0) {
          assert steps[1..][k] == steps[k + 1] && steps[1..][j] == steps[j + 1];
        }
      }
      if exists k :: 0 < k < |steps| && steps[k].0 == q {
        var k :| 0 < k < |steps| && steps[k].0 == q;
        assert steps[1..][k - 1].0 == q;
      } else {
        ReplaceAllWithout(s, steps[0].0, steps[0].1, q);
      }
      ReplaceEachWithout(next, steps[1..], q);
    }
  }

  /** Text holding none of the patterns passes through unchanged. */
  lemma {:induction false} ReplaceEachNoMatch(s: string, steps: seq<(string, string)>)
    requires forall k :: 0 <= k < |steps| ==> steps[k].0 != [] && !Includes(s, steps[k].0)
    ensures ReplaceEach(s, steps) == s
    decreases |steps|
  {
    if steps != [] {
      ReplaceAllNoMatch(s, steps[0].0, steps[0].1);
      ReplaceEachNoMatch(s, steps[1..]);
    }
  }

  /** What `formatDate` reads off the parsed date (in the server's time zone): the full year, the
      zero-based month, the day of the month, hours, minutes and seconds. */
  datatype DateFields = DateFields(year: int, month: nat, day: nat, hours: nat, minutes: nat, seconds: nat)

  /** The replacement for each token. */
  datatype DateParts = DateParts(yyyy: string, yy: string, MM: string, dd: string, HH: string, mm: string, ss: string)

  function DigitChar(d: nat): char
    requires d < 10
  {
    ('0' as int + d) as char
  }

  /** `String(n)` for a whole number. */
  function DecimalString(n: nat): (r: string)
    ensures r != []
  {
    if n < 10 then [DigitChar(n)] else DecimalString(n / 10) + [DigitChar(n % 10)]
  }

  /** The value of a string of decimal digits, the inverse of `DecimalString`. */
  function ParseDecimal(s: string): nat
  {
    if s == [] then 0
    else
      var d := s[|s| - 1] as int - '0' as int;
      ParseDecimal(s[..|s| - 1]) * 10 + (if 0 <= d < 10 then d else 0)
  }

  predicate IsDigit(c: char)
  {
    '0' <= c <= '9'
  }

  /** `String(n)` for any integer: a minus sign before the digits of a negative one. */
  function NumberString(n: int): string
  {
    if n < 0 then "-" + DecimalString(-n) else DecimalString(n)
  }

  /** `String(n).padStart(2, '0')`. */
  function Pad(n: nat): string
  {
    var s := DecimalString(n);
    if |s| >= 2 then s else "0" + s
  }

  /** `s.slice(-2)`: the last two characters, or the whole of a shorter string. */
  function LastTwo(s: string): string
  {
    if |s| <= 2 then s else s[|s| - 2..]
  }

  /** The `parts` object of `formatDate`. */
  function PartsOf(f: DateFields): DateParts
  {
    var year := NumberString(f.year);
    DateParts(year, LastTwo(year), Pad(f.month + 1), Pad(f.day), Pad(f.hours), Pad(f.minutes), Pad(f.seconds))
  }

  /** The tokens in the order they are replaced: the longer year token before the shorter one. */
  const Tokens: seq<string> := ["yyyy", "yy", "MM", "dd", "HH", "mm", "ss"]

  const DefaultPattern: string := "yy-MM-dd HH:mm"

  /** Each token with its replacement, in the order of `formatDate`. */
  function Steps(p: DateParts): (r: seq<(string, string)>)
    ensures |r| == |Tokens| && forall k :: 0 <= k < |r| ==> r[k].0 == Tokens[k]
  {
    [("yyyy", p.yyyy), ("yy", p.yy), ("MM", p.MM), ("dd", p.dd), ("HH", p.HH), ("mm", p.mm), ("ss", p.ss)]
  }

  /** The seven global replacements of `formatDate`, in their order. */
  function Render(pattern: string, p: DateParts): (r: string)
    ensures (forall k :: 0 <= k < |Tokens| ==> !Includes(pattern, Tokens[k])) ==> r == pattern
  {
    if forall k :: 0 <= k < |Tokens| ==> !Includes(pattern, Tokens[k]) then
      ReplaceEachNoMatch(pattern, Steps(p));
      ReplaceEach(pattern, Steps(p))
    else
      ReplaceEach(pattern, Steps(p))
  }

  /** `formatDate(value, pattern)`: an empty value gives the empty string; a value that does not parse
      as a date (`date` is None) is returned as it is; otherwise the pattern, `yy-MM-dd HH:mm` when none
      is given, is rendered with the date's parts. */
  function FormatDate(value: string, pattern: Option<string>, date: Option<DateFields>): (r: string)
    ensures value == [] ==> r == []
    ensures value != [] && date.None? ==> r == value
  {
    if value == [] then []
    else
      match date
      case None => value
      case Some(f) => Render(if pattern.Some? then pattern.value else DefaultPattern, PartsOf(f))
  }

  /** A replacement made of digits and minus signs only. */
  predicate Plain(s: string)
  {
    s != [] && forall i :: 0 <= i < |s| ==> IsDigit(s[i]) || s[i] == '-'
  }

  predicate PlainParts(p: DateParts)
  {
    Plain(p.yyyy) && Plain(p.yy) && Plain(p.MM) && Plain(p.dd) && Plain(p.HH) && Plain(p.mm) && Plain(p.ss)
  }

  lemma {:induction false} DecimalDigits(n: nat)
    ensures forall i :: 0 <= i < |DecimalString(n)| ==> IsDigit(DecimalString(n)[i])
  {
    if n >= 10 {
      DecimalDigits(n / 10);
    }
  }

  /** Reading the digits back gives the number. */
  lemma {:induction false} ParseDecimalString(n: nat)
    ensures ParseDecimal(DecimalString(n)) == n
  {
    if n >= 10 {
      ParseDecimalString(n / 10);
      var s := DecimalString(n);
      assert s[..|s| - 1] == DecimalString(n / 10);
    }
  }

  /** A padded field is two digits for a value below 100 and reads back as the value. */
  lemma PadTwoDigits(n: nat)
    requires n < 100
    ensures |Pad(n)| == 2 && ParseDecimal(Pad(n)) == n
  {
    ParseDecimalString(n);
    if n < 10 {
      assert Pad(n) == ['0', DigitChar(n)];
      assert Pad(n)[..1] == ['0'];
    } else {
      assert DecimalString(n / 10) == [DigitChar(n / 10)];
    }
  }

  /** Every part of a date is made of digits and minus signs. */
  lemma PartsArePlain(f: DateFields)
    ensures PlainParts(PartsOf(f))
  {
    var y := NumberString(f.year);
    if f.year < 0 {
      DecimalDigits(-f.year);
      assert forall i :: 0 < i < |y| ==> y[i] == DecimalString(-f.year)[i - 1];
    } else {
      DecimalDigits(f.year);
    }
    assert Plain(LastTwo(y)) by {
      if |y| > 2 {
        assert forall i :: 0 <= i < 2 ==> LastTwo(y)[i] == y[|y| - 2 + i];
      }
    }
    forall n: nat ensures Plain(Pad(n)) {
      DecimalDigits(n);
    }
  }

  /** A plain string shares no character with a token. */
  lemma PlainApart(s: string, tok: string)
    requires Plain(s) && tok in Tokens
    ensures Disjoint(s, tok)
  {
    forall i | 0 <= i < |s| ensures s[i] !in tok {
      assert IsDigit(s[i]) || s[i] == '-';
    }
  }

  /** A string that shares no character with a non-empty pattern does not hold it. */
  lemma ApartExcludes(s: string, q: string)
    requires q != [] && Disjoint(s, q)
    ensures !Includes(s, q)
  {
    forall i | 0 <= i && i + |q| <= |s| ensures !OccursAt(s, q, i) {
      assert s[i..i + |q|][0] == s[i];
    }
  }

  /** With plain parts, the steps of `formatDate` are separate. */
  lemma PlainStepsSeparate(p: DateParts)
    requires PlainParts(p)
    ensures Separate(Steps(p))
  {
    var steps := Steps(p);
    forall k, j | 0 <= k < |steps| && 0 <= j < |steps| ensures Disjoint(steps[k].1, steps[j].0) {
      assert steps[j].0 in Tokens;
      PlainApart(steps[k].1, steps[j].0);
    }
  }

  /** With plain parts, no token survives the rendering: each replacement removes its own token and
      cannot bring back one removed before it. */
  lemma RenderLeavesNoToken(pattern: string, p: DateParts)
    requires PlainParts(p)
    ensures forall tok :: tok in Tokens ==> !Includes(Render(pattern, p), tok)
  {
    var steps := Steps(p);
    PlainStepsSeparate(p);
    forall tok | tok in Tokens ensures !Includes(Render(pattern, p), tok) {
      var k :| 0 <= k < |Tokens| && Tokens[k] == tok;
      assert steps[k].0 == tok;
      ReplaceEachWithout(pattern, steps, tok);
    }
  }

  /** A formatted date holds no token. */
  lemma FormatDateLeavesNoToken(value: string, pattern: Option<string>, f: DateFields)
    requires value != []
    ensures forall tok :: tok in Tokens ==> !Includes(FormatDate(value, pattern, Some(f)), tok)
  {
    PartsArePlain(f);
    RenderLeavesNoToken(if pattern.Some? then pattern.value else DefaultPattern, PartsOf(f));
  }

  /** The four-letter year token becomes the full year, not two copies of the two-digit year: it is
      replaced first. */
  lemma RenderFullYear(p: DateParts)
    requires PlainParts(p)
    ensures Render("yyyy", p) == p.yyyy
  {
    var steps := Steps(p);
    assert ReplaceAll([], "yyyy", p.yyyy) == [];
    assert ReplaceAll("yyyy", "yyyy", p.yyyy) == p.yyyy;
    forall k | 0 <= k < |steps[1..]| ensures !Includes(p.yyyy, steps[1..][k].0) {
      assert steps[1..][k].0 in Tokens;
      PlainApart(p.yyyy, steps[1..][k].0);
      ApartExcludes(p.yyyy, steps[1..][k].0);
    }
    ReplaceEachNoMatch(p.yyyy, steps[1..]);
  }

  /** Replacing the two-letter token first would have turned the full-year token into the short year
      twice over. */
  lemma ShortTokenFirstDoublesYear(yy: string)
    ensures ReplaceAll("yyyy", "yy", yy) == yy + yy
  {
    assert "yyyy"[2..] == "yy";
    assert ReplaceAll("yy", "yy", yy) == yy + ReplaceAll([], "yy", yy);
  }
}
