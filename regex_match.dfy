/** What the regular expression that `parse` builds matches, and which capture
    groups a JavaScript RegExp reports for it.

    The expression is `^` followed by one piece per segment and then `\/?$`,
    with the `i` flag. `Accepts` says which (path, captures) pairs fit the
    pattern at all; `Run` follows the backtracking order of the JavaScript
    engine (greedy `(.*)`, lazy `([^/]+?)`, greedy `\/?`) and so picks the
    captures that `exec` returns. */
module RegexMatch {
  import opened RoutePattern

  /** The `i` flag's canonical form of a character, for ASCII letters. */
  function Fold(c: char): char
  {
    if 'A' <= c <= 'Z' then (c as int + 32) as char else c
  }

  predicate SameIgnoringCase(a: string, b: string)
  {
    |a| == |b| && forall i :: 0 <= i < |a| ==> Fold(a[i]) == Fold(b[i])
  }

  /** `s` is a full match of pattern `p` with capture groups `caps` (group 1
      first). Each segment consumes a `/` and then: a literal its text up to
      case; a named capture one or more characters other than `/`; a wildcard
      any run at all. At the end one optional `/` may remain. */
  predicate Accepts(p: Pattern, s: string, caps: seq<string>)
    decreases |p|
  {
    if p == [] then caps == [] && (s == "" || s == "/")
    else
      |s| > 0 && s[0] == '/' &&
      match p[0]
      case Lit(l) =>
        |l| < |s| && SameIgnoringCase(s[1..|l| + 1], l) && Accepts(p[1..], s[|l| + 1..], caps)
      case Param(_) =>
        |caps| > 0 && 0 < |caps[0]| < |s| && s[1..|caps[0]| + 1] == caps[0] && '/' !in caps[0]
        && Accepts(p[1..], s[|caps[0]| + 1..], caps[1..])
      case Wild =>
        |caps| > 0 && |caps[0]| < |s| && s[1..|caps[0]| + 1] == caps[0]
        && Accepts(p[1..], s[|caps[0]| + 1..], caps[1..])
  }

  ghost predicate Matches(p: Pattern, s: string)
  {
    exists caps :: Accepts(p, s, caps)
  }

  /** `rx.exec(s)` for the compiled pattern: the capture groups of the match
      the engine finds first, or None when `s` does not match. */
  function Run(p: Pattern, s: string): (r: Option<seq<string>>)
    decreases |p|, 2, 0
    ensures r.Some? ==> Accepts(p, s, r.value) && |r.value| == |Keys(p)|
  {
    if p == [] then
      // `\/?` is greedy: it tries to consume a `/` first, then nothing; `$` follows.
      if s == "" || s == "/" then Some([]) else None
    else if s == "" || s[0] != '/' then None
    else
      match p[0]
      case Lit(l) =>
        if |l| < |s| && SameIgnoringCase(s[1..|l| + 1], l) then Run(p[1..], s[|l| + 1..]) else None
      case Param(_) =>
        var r := Lazy(p[1..], s, 1);
        if r.Some? then
          CaptureAccepts(p, s, r.value);
          assert Keys(p) == KeyOf(p[0]) + Keys(p[1..]);
          r
        else None
      case Wild =>
        var r := Greedy(p[1..], s, |s| - 1);
        if r.Some? then
          CaptureAccepts(p, s, r.value);
          assert Keys(p) == KeyOf(p[0]) + Keys(p[1..]);
          r
        else None
  }

  /** A capture right after a capturing segment's `/`, followed by a match
      of the rest, makes a match of the whole path. */
  lemma CaptureAccepts(p: Pattern, s: string, caps: seq<string>)
    requires p != [] && !p[0].Lit? && s != "" && s[0] == '/'
    requires |caps| > 0 && |caps[0]| < |s| && caps[0] == s[1..|caps[0]| + 1]
    requires p[0].Param? ==> caps[0] != "" && '/' !in caps[0]
    requires Accepts(p[1..], s[|caps[0]| + 1..], caps[1..])
    ensures Accepts(p, s, caps)
  {
  }

  /** A match of the rest of a pattern extends to a match behind a literal
      segment that the path spells up to case. */
  lemma LitAccepts(p: Pattern, s: string, caps: seq<string>)
    requires p != [] && p[0].Lit? && s != "" && s[0] == '/'
    requires |p[0].text| < |s| && SameIgnoringCase(s[1..|p[0].text| + 1], p[0].text)
    requires Accepts(p[1..], s[|p[0].text| + 1..], caps)
    ensures Accepts(p, s, caps)
  {
  }

  // In Lazy and Greedy, `s` is the path from the capturing segment's `/` on
  // and k is the length of the capture being tried, `s[1..k + 1]`; `rest`
  // must match what follows it, `s[k + 1..]`.

  /** What `([^/]+?)` followed by `rest` promises when it starts with a
      capture of k characters: a result is the shortest slash-free capture of
      at least k characters after which `rest` matches; no result means no
      such capture exists. */
  predicate LazyOutcome(rest: Pattern, s: string, k: nat, r: Option<seq<string>>)
    decreases |rest| + 1, 0
  {
    && (r.Some? ==>
          && |r.value| == |Keys(rest)| + 1
          && k <= |r.value[0]| < |s| && r.value[0] == s[1..|r.value[0]| + 1] && '/' !in r.value[0]
          && Accepts(rest, s[|r.value[0]| + 1..], r.value[1..])
          && forall j {:trigger Run(rest, s[j..])} :: k < j <= |r.value[0]| ==> Run(rest, s[j..]).None?)
    && (r.None? ==> forall j {:trigger Run(rest, s[j..])} :: k < j <= |s| && '/' !in s[1..j] ==> Run(rest, s[j..]).None?)
  }

  /** `([^/]+?)` followed by `rest`: tries the capture of k characters, then
      ever longer ones, and gives up at the first `/`. */
  function Lazy(rest: Pattern, s: string, k: nat): (r: Option<seq<string>>)
    requires 1 <= k <= |s| && '/' !in s[1..k]
    decreases |rest| + 1, 1, |s| - k
    ensures LazyOutcome(rest, s, k, r)
  {
    if k == |s| then
      None
    else if s[k] == '/' then
      SlashEndsCapture(rest, s, k);
      None
    else
      SlashFreeGrows(s, k);
      var here := Run(rest, s[k + 1..]);
      if here.Some? then
        LazyHit(rest, s, k, here.value);
        Some([s[1..k + 1]] + here.value)
      else
        var r := Lazy(rest, s, k + 1);
        LazyMiss(rest, s, k, r);
        r
  }

  /** The capture of k characters works: it is the result. */
  lemma LazyHit(rest: Pattern, s: string, k: nat, cs: seq<string>)
    requires 1 <= k < |s| && '/' !in s[1..k + 1]
    requires Accepts(rest, s[k + 1..], cs) && |cs| == |Keys(rest)|
    ensures LazyOutcome(rest, s, k, Some([s[1..k + 1]] + cs))
    decreases |rest| + 1, 1, 0
  {
    var c := s[1..k + 1];
    assert |c| == k && s[|c| + 1..] == s[k + 1..];
    assert ([c] + cs)[0] == c && ([c] + cs)[1..] == cs;
  }

  /** The capture of k characters fails: the outcome from k + 1 on is the
      outcome from k. */
  lemma LazyMiss(rest: Pattern, s: string, k: nat, r: Option<seq<string>>)
    requires 1 <= k < |s|
    requires Run(rest, s[k + 1..]).None? && LazyOutcome(rest, s, k + 1, r)
    ensures LazyOutcome(rest, s, k, r)
    decreases |rest| + 1, 1, 0
  {
    if r.Some? {
      forall j | k < j <= |r.value[0]| ensures Run(rest, s[j..]).None? {
        if j == k + 1 {
          assert s[j..] == s[k + 1..];
        } else {
          assert k + 1 < j <= |r.value[0]|;
        }
      }
    } else {
      forall j | k < j <= |s| && '/' !in s[1..j] ensures Run(rest, s[j..]).None? {
        if j == k + 1 {
          assert s[j..] == s[k + 1..];
        } else {
          assert k + 1 < j <= |s| && '/' !in s[1..j];
        }
      }
    }
  }

  /** Once the capture would reach a `/`, every longer one holds it too. */
  lemma SlashEndsCapture(rest: Pattern, s: string, k: nat)
    requires 1 <= k < |s| && s[k] == '/'
    ensures LazyOutcome(rest, s, k, None)
    decreases |rest| + 1, 1, 0
  {
    forall j | k < j <= |s| ensures '/' in s[1..j] {
      assert s[1..j][k - 1] == '/';
    }
  }

  lemma SlashFreeGrows(s: string, k: nat)
    requires 1 <= k < |s| && '/' !in s[1..k] && s[k] != '/'
    ensures '/' !in s[1..k + 1]
  {
    assert s[1..k + 1] == s[1..k] + [s[k]];
  }

  /** What `(.*)` followed by `rest` promises when it starts with a capture
      of k characters: a result is the longest capture of at most k
      characters after which `rest` matches; no result means no such capture
      exists. */
  predicate GreedyOutcome(rest: Pattern, s: string, k: nat, r: Option<seq<string>>)
    decreases |rest| + 1, 0
  {
    && (r.Some? ==>
          && |r.value| == |Keys(rest)| + 1
          && |r.value[0]| <= k && |r.value[0]| < |s| && r.value[0] == s[1..|r.value[0]| + 1]
          && Accepts(rest, s[|r.value[0]| + 1..], r.value[1..])
          && forall j {:trigger Run(rest, s[j..])} :: |r.value[0]| + 1 < j <= k + 1 && j <= |s| ==> Run(rest, s[j..]).None?)
    && (r.None? ==> forall j {:trigger Run(rest, s[j..])} :: 1 <= j <= k + 1 && j <= |s| ==> Run(rest, s[j..]).None?)
  }

  /** `(.*)` followed by `rest`: tries the capture of k characters, then ever
      shorter ones, down to the empty capture. */
  function Greedy(rest: Pattern, s: string, k: nat): (r: Option<seq<string>>)
    requires k < |s|
    decreases |rest| + 1, 1, k + 1
    ensures GreedyOutcome(rest, s, k, r)
  {
    var here := Run(rest, s[k + 1..]);
    if here.Some? then
      GreedyHit(rest, s, k, here.value);
      Some([s[1..k + 1]] + here.value)
    else if k == 0 then
      None
    else
      var r := Greedy(rest, s, k - 1);
      GreedyMiss(rest, s, k, r);
      r
  }

  /** The capture of k characters works: it is the result. */
  lemma GreedyHit(rest: Pattern, s: string, k: nat, cs: seq<string>)
    requires k < |s| && Accepts(rest, s[k + 1..], cs) && |cs| == |Keys(rest)|
    ensures GreedyOutcome(rest, s, k, Some([s[1..k + 1]] + cs))
    decreases |rest| + 1, 1, 0
  {
    var c := s[1..k + 1];
    assert |c| == k && s[|c| + 1..] == s[k + 1..];
    assert ([c] + cs)[0] == c && ([c] + cs)[1..] == cs;
  }

  /** The capture of k characters fails: the outcome from k - 1 down is the
      outcome from k. */
  lemma GreedyMiss(rest: Pattern, s: string, k: nat, r: Option<seq<string>>)
    requires 1 <= k < |s|
    requires Run(rest, s[k + 1..]).None? && GreedyOutcome(rest, s, k - 1, r)
    ensures GreedyOutcome(rest, s, k, r)
    decreases |rest| + 1, 1, 0
  {
    if r.Some? {
      forall j | |r.value[0]| + 1 < j <= k + 1 && j <= |s| ensures Run(rest, s[j..]).None? {
        if j == k + 1 {
          assert s[j..] == s[k + 1..];
        } else {
          assert |r.value[0]| + 1 < j <= k;
        }
      }
    } else {
      forall j | 1 <= j <= k + 1 && j <= |s| ensures Run(rest, s[j..]).None? {
        if j == k + 1 {
          assert s[j..] == s[k + 1..];
        } else {
          assert 1 <= j <= k;
        }
      }
    }
  }

  // ---------------------------------------------------------------------------
  // The engine finds a match whenever there is one
  // ---------------------------------------------------------------------------

  /** Backtracking is complete: every accepted path is matched by Run. */
  lemma {:induction false} RunComplete(p: Pattern, s: string, caps: seq<string>)
    requires Accepts(p, s, caps)
    ensures Run(p, s).Some?
    decreases |p|
  {
    if p != [] {
      match p[0]
      case Lit(l) =>
        RunComplete(p[1..], s[|l| + 1..], caps);
      case Param(_) =>
        var m := |caps[0]|;
        RunComplete(p[1..], s[m + 1..], caps[1..]);
        LazyFinds(p[1..], s, m);
      case Wild =>
        var m := |caps[0]|;
        RunComplete(p[1..], s[m + 1..], caps[1..]);
        GreedyFinds(p[1..], s, m);
    }
  }

  /** The lazy search finds a capture whenever some slash-free capture is
      followed by a match of the rest. */
  lemma LazyFinds(rest: Pattern, s: string, m: nat)
    requires 0 < m < |s| && '/' !in s[1..m + 1]
    requires Run(rest, s[m + 1..]).Some?
    ensures '/' !in s[1..1] && Lazy(rest, s, 1).Some?
  {
    assert s[1..1] == [];
    assert 1 < m + 1 <= |s|;
  }

  /** The greedy search finds a capture whenever some capture is followed by
      a match of the rest. */
  lemma GreedyFinds(rest: Pattern, s: string, m: nat)
    requires m < |s|
    requires Run(rest, s[m + 1..]).Some?
    ensures Greedy(rest, s, |s| - 1).Some?
  {
    assert 1 <= m + 1 <= |s|;
  }

  /** Run decides the matching relation: it answers Some exactly when some
      captures make the path a match, and its captures are such captures. */
  lemma RunDecidesMatch(p: Pattern, s: string)
    ensures Run(p, s).Some? <==> Matches(p, s)
    ensures Run(p, s).Some? ==> Accepts(p, s, Run(p, s).value)
  {
    if Matches(p, s) {
      var caps :| Accepts(p, s, caps);
      RunComplete(p, s, caps);
    }
  }

  /** A match has exactly one capture per key, in order. */
  lemma {:induction false} CaptureCount(p: Pattern, s: string, caps: seq<string>)
    requires Accepts(p, s, caps)
    ensures |caps| == |Keys(p)|
    decreases |p|
  {
    if p != [] {
      match p[0]
      case Lit(l) => CaptureCount(p[1..], s[|l| + 1..], caps);
      case Param(_) => CaptureCount(p[1..], s[|caps[0]| + 1..], caps[1..]);
      case Wild => CaptureCount(p[1..], s[|caps[0]| + 1..], caps[1..]);
    }
  }

  /** Every segment starts with `/`, so whatever follows a capture in a match
      is empty or starts with `/`. */
  lemma AcceptsStartsWithSlash(p: Pattern, s: string, caps: seq<string>)
    requires Accepts(p, s, caps) && s != ""
    ensures s[0] == '/'
  {
  }

  /** A named capture cannot be longer than another match's capture of the
      same segment: it would run past the `/` that ends the other. */
  lemma ParamCaptureNoLonger(p: Pattern, s: string, c1: seq<string>, c2: seq<string>)
    requires p != [] && p[0].Param? && Accepts(p, s, c1) && Accepts(p, s, c2)
    ensures |c2[0]| <= |c1[0]|
  {
    var m1 := |c1[0]|;
    if m1 + 1 < |s| {
      AcceptsStartsWithSlash(p[1..], s[m1 + 1..], c1[1..]);
      assert s[m1 + 1] == '/';
    }
    if m1 < |c2[0]| {
      // c2[0] would hold that `/`.
      assert false;
    }
  }

  /** Without a wildcard the captures of a match are forced: each named
      capture is a whole path segment, up to the next `/` or the end. */
  lemma {:induction false} CapturesUniqueWithoutWild(p: Pattern, s: string, c1: seq<string>, c2: seq<string>)
    requires forall i :: 0 <= i < |p| ==> !p[i].Wild?
    requires Accepts(p, s, c1) && Accepts(p, s, c2)
    ensures c1 == c2
    decreases |p|
  {
    if p != [] {
      assert forall i :: 0 <= i < |p[1..]| ==> p[1..][i] == p[i + 1];
      match p[0]
      case Lit(l) =>
        CapturesUniqueWithoutWild(p[1..], s[|l| + 1..], c1, c2);
      case Param(_) =>
        ParamCaptureNoLonger(p, s, c1, c2);
        ParamCaptureNoLonger(p, s, c2, c1);
        var m1 := |c1[0]|;
        CapturesUniqueWithoutWild(p[1..], s[m1 + 1..], c1[1..], c2[1..]);
        assert c1 == [c1[0]] + c1[1..] && c2 == [c2[0]] + c2[1..];
    }
  }

  /** Without a wildcard, the capture list of any match is what the
      matcher returns. */
  lemma RunForced(p: Pattern, s: string, caps: seq<string>)
    requires forall i :: 0 <= i < |p| ==> !p[i].Wild?
    requires Accepts(p, s, caps)
    ensures Run(p, s) == Some(caps)
  {
    RunDecidesMatch(p, s);
    CapturesUniqueWithoutWild(p, s, Run(p, s).value, caps);
  }

  /** A match of the rest of a pattern extends to a match behind a literal
      segment. */
  lemma AcceptsLit(l: string, rest: Pattern, x: string, caps: seq<string>)
    requires Accepts(rest, x, caps)
    ensures Accepts([Lit(l)] + rest, "/" + l + x, caps)
  {
    var s := "/" + l + x;
    assert s[1..|l| + 1] == l && s[|l| + 1..] == x;
    assert ([Lit(l)] + rest)[1..] == rest;
  }

  /** A match of the rest of a pattern extends to a match behind a named
      capture, capturing any non-empty run without `/`. */
  lemma AcceptsParam(name: string, c: string, rest: Pattern, x: string, caps: seq<string>)
    requires c != "" && '/' !in c && Accepts(rest, x, caps)
    ensures Accepts([Param(name)] + rest, "/" + c + x, [c] + caps)
  {
    var s := "/" + c + x;
    assert s[1..|c| + 1] == c && s[|c| + 1..] == x;
    assert ([Param(name)] + rest)[1..] == rest;
    assert ([c] + caps)[1..] == caps;
  }

  /** A match of the rest of a pattern extends to a match behind a wildcard,
      capturing any run at all. */
  lemma AcceptsWild(c: string, rest: Pattern, x: string, caps: seq<string>)
    requires Accepts(rest, x, caps)
    ensures Accepts([Wild] + rest, "/" + c + x, [c] + caps)
  {
    var s := "/" + c + x;
    assert s[1..|c| + 1] == c && s[|c| + 1..] == x;
    assert ([Wild] + rest)[1..] == rest;
    assert ([c] + caps)[1..] == caps;
  }

  // ---------------------------------------------------------------------------
  // Which captures the engine reports
  // ---------------------------------------------------------------------------

  /** A leading `(.*)` takes the longest capture any match allows. */
  lemma WildTakesLongest(p: Pattern, s: string, caps: seq<string>, other: seq<string>)
    requires p != [] && p[0] == Wild
    requires Run(p, s) == Some(caps) && Accepts(p, s, other)
    ensures |other[0]| <= |caps[0]|
  {
    var m := |other[0]|;
    if m > |caps[0]| {
      RunComplete(p[1..], s[m + 1..], other[1..]);
      assert false;
    }
  }

  /** A leading `([^/]+?)` takes the shortest capture any match allows. */
  lemma ParamTakesShortest(p: Pattern, s: string, caps: seq<string>, other: seq<string>)
    requires p != [] && p[0].Param?
    requires Run(p, s) == Some(caps) && Accepts(p, s, other)
    ensures |caps[0]| <= |other[0]|
  {
    var m := |other[0]|;
    if m < |caps[0]| {
      RunComplete(p[1..], s[m + 1..], other[1..]);
      assert false;
    }
  }

  /** When the first segment captures, the captures after the first are
      exactly those Run returns for the rest of the pattern on the rest of the
      path (`TailAgrees` below), so the capture priorities above hold at every
      capturing segment along the match, not only the first. */
  lemma RunCaptureTail(p: Pattern, s: string)
    requires p != [] && !p[0].Lit?
    ensures TailAgrees(p[1..], s, Run(p, s))
  {
    if p[0].Param? {
      ParamTailAgrees(p, s);
    } else {
      WildTailAgrees(p, s);
    }
  }

  /** Run on a pattern led by a named capture is the lazy search, so it
      agrees with Run on the rest of the path. */
  lemma ParamTailAgrees(p: Pattern, s: string)
    requires p != [] && p[0].Param?
    ensures TailAgrees(p[1..], s, Run(p, s))
  {
    if s != "" && s[0] == '/' {
      assert s[1..1] == [];
      LazyTail(p[1..], s, 1);
      assert Run(p, s) == Lazy(p[1..], s, 1);
    }
  }

  /** Run on a pattern led by a wildcard is the greedy search, so it agrees
      with Run on the rest of the path. */
  lemma WildTailAgrees(p: Pattern, s: string)
    requires p != [] && p[0].Wild?
    ensures TailAgrees(p[1..], s, Run(p, s))
  {
    if s != "" && s[0] == '/' {
      GreedyTail(p[1..], s, |s| - 1);
      assert Run(p, s) == Greedy(p[1..], s, |s| - 1);
    }
  }

  /** A result of a capture search on `s` agrees with Run on the rest of the
      path: its later captures are Run's after its first one. */
  predicate TailAgrees(rest: Pattern, s: string, r: Option<seq<string>>)
  {
    r.Some? ==> |r.value| > 0 && |r.value[0]| < |s| && Run(rest, s[|r.value[0]| + 1..]) == Some(r.value[1..])
  }

  /** The lazy search's later captures are Run's on the rest of the path. */
  lemma {:induction false} LazyTail(rest: Pattern, s: string, k: nat)
    requires 1 <= k <= |s| && '/' !in s[1..k]
    ensures TailAgrees(rest, s, Lazy(rest, s, k))
    decreases |s| - k
  {
    if k < |s| && s[k] != '/' {
      SlashFreeGrows(s, k);
      if Run(rest, s[k + 1..]).Some? {
        LazyHitAgrees(rest, s, k);
      } else {
        LazyMissSame(rest, s, k);
        LazyTail(rest, s, k + 1);
      }
    }
  }

  /** A capture of k characters that works is the lazy search's result. */
  lemma LazyHitAgrees(rest: Pattern, s: string, k: nat)
    requires 1 <= k < |s| && '/' !in s[1..k] && '/' !in s[1..k + 1] && Run(rest, s[k + 1..]).Some?
    ensures TailAgrees(rest, s, Lazy(rest, s, k))
  {
    var here := Run(rest, s[k + 1..]);
    var c := s[1..k + 1];
    assert Lazy(rest, s, k) == Some([c] + here.value);
    assert |c| == k && ([c] + here.value)[0] == c && ([c] + here.value)[1..] == here.value;
  }

  /** A failed capture of k characters leaves the lazy search's result to
      the next longer one. */
  lemma LazyMissSame(rest: Pattern, s: string, k: nat)
    requires 1 <= k < |s| && '/' !in s[1..k + 1] && Run(rest, s[k + 1..]).None?
    ensures '/' !in s[1..k] && Lazy(rest, s, k) == Lazy(rest, s, k + 1)
  {
    assert s[1..k] == s[1..k + 1][..k - 1];
  }

  /** The greedy search's later captures are Run's on the rest of the path. */
  lemma {:induction false} GreedyTail(rest: Pattern, s: string, k: nat)
    requires k < |s|
    ensures TailAgrees(rest, s, Greedy(rest, s, k))
    decreases k
  {
    if Run(rest, s[k + 1..]).Some? {
      GreedyHitAgrees(rest, s, k);
    } else if k > 0 {
      GreedyMissSame(rest, s, k);
      GreedyTail(rest, s, k - 1);
    }
  }

  /** A capture of k characters that works is the greedy search's result. */
  lemma GreedyHitAgrees(rest: Pattern, s: string, k: nat)
    requires k < |s| && Run(rest, s[k + 1..]).Some?
    ensures TailAgrees(rest, s, Greedy(rest, s, k))
  {
    var here := Run(rest, s[k + 1..]);
    var c := s[1..k + 1];
    assert Greedy(rest, s, k) == Some([c] + here.value);
    assert |c| == k && ([c] + here.value)[0] == c && ([c] + here.value)[1..] == here.value;
  }

  /** A failed capture of k characters leaves the greedy search's result to
      the next shorter one. */
  lemma GreedyMissSame(rest: Pattern, s: string, k: nat)
    requires 0 < k < |s| && Run(rest, s[k + 1..]).None?
    ensures Greedy(rest, s, k) == Greedy(rest, s, k - 1)
  {
  }

  // For the template `/:user/*` the wildcard after the named capture is
  // still greedy: on `/a/b/` it takes `b/`, trailing `/` included.
  lemma ParamThenWild()
    ensures Run([Param("user"), Wild], "/a/b/") == Some(["a", "b/"])
  {
    var s := "/a/b/";
    assert [Param("user"), Wild][1..] == [Wild];
    assert s[1..1] == [] && s[1..2] == "a" && s[2..] == "/b/" && s[1] != '/';
    SoleWildCapturesRest("/b/");
    assert "/b/"[1..] == "b/";
    assert ["a"] + ["b/"] == ["a", "b/"];
  }

  /** The templates `""` and `/` match the bare root only: `""` or `/`. */
  lemma RootTemplateMatchesRootOnly(template: string, s: string)
    requires template == "" || template == "/"
    ensures Run(Compile(template), s).Some? <==> s == "" || s == "/"
  {
    RootTemplates();
  }

  /** A template that is a single wildcard matches every path that starts
      with `/`, and greedy `(.*)` captures all of the rest, a trailing `/`
      included. */
  lemma SoleWildCapturesRest(s: string)
    requires s != "" && s[0] == '/'
    ensures Run([Wild], s) == Some([s[1..]])
  {
    AcceptsWild(s[1..], [], "", []);
    assert [Wild] + [] == [Wild] && "/" + s[1..] + "" == s;
    RunComplete([Wild], s, [s[1..]]);
    var caps := Run([Wild], s).value;
    WildTakesLongest([Wild], s, caps, [s[1..]]);
    assert |caps| == 1 && |caps[0]| == |s| - 1;
    assert caps[0] == s[1..|s|] == s[1..];
    assert caps == [caps[0]];
  }

  // ---------------------------------------------------------------------------
  // Shape of a match
  // ---------------------------------------------------------------------------

  /** The capture a named segment contributes is a non-empty run without `/`;
      the key it is bound under sits at the same position in Keys(p). */
  lemma {:induction false} ParamCaptureShape(p: Pattern, s: string, caps: seq<string>, i: nat)
    requires Accepts(p, s, caps) && i < |p| && p[i].Param?
    ensures |Keys(p[..i])| < |caps|
    ensures caps[|Keys(p[..i])|] != "" && '/' !in caps[|Keys(p[..i])|]
    decreases |p|
  {
    if i == 0 {
      assert p[..0] == [];
    } else {
      KeysPrefixStep(p, i);
      var j := |Keys(p[1..][..i - 1])|;
      match p[0]
      case Lit(l) =>
        ParamCaptureShape(p[1..], s[|l| + 1..], caps, i - 1);
      case Param(_) =>
        ParamCaptureShape(p[1..], s[|caps[0]| + 1..], caps[1..], i - 1);
        assert caps[1..][j] == caps[j + 1];
      case Wild =>
        ParamCaptureShape(p[1..], s[|caps[0]| + 1..], caps[1..], i - 1);
        assert caps[1..][j] == caps[j + 1];
    }
  }

  /** The keys before position `i` are those of the first segment followed by
      those of the next `i - 1`. */
  lemma KeysPrefixStep(p: Pattern, i: nat)
    requires 0 < i <= |p|
    ensures |Keys(p[..i])| == |KeyOf(p[0])| + |Keys(p[1..][..i - 1])|
  {
    assert p[1..][..i - 1] == p[1..i];
    assert p[..i] == [p[0]] + p[1..i];
    KeysAppend([p[0]], p[1..i]);
    assert [p[0]][1..] == [];
    assert Keys([p[0]]) == KeyOf(p[0]);
  }

  /** A trailing `/` on the path is tolerated: a match of a path that does not
      end in `/` is also a match of the path with `/` appended. */
  lemma {:induction false} AcceptsTrailingSlash(p: Pattern, s: string, caps: seq<string>)
    requires Accepts(p, s, caps) && (s == "" || s[|s| - 1] != '/')
    ensures Accepts(p, s + "/", caps)
    decreases |p|
  {
    if p != [] {
      var n := match p[0] case Lit(l) => |l| case _ => |caps[0]|;
      var t := s + "/";
      SlashAppended(s, n);
      if p[0].Lit? {
        AcceptsTrailingSlash(p[1..], s[n + 1..], caps);
        LitAccepts(p, t, caps);
      } else {
        AcceptsTrailingSlash(p[1..], s[n + 1..], caps[1..]);
        CaptureAccepts(p, t, caps);
      }
    }
  }

  /** Appending `/` leaves a prefix unchanged and appends `/` to the
      suffix after it, which did not end in `/`. */
  lemma SlashAppended(s: string, n: nat)
    requires n < |s| && s[|s| - 1] != '/'
    ensures (s + "/")[1..n + 1] == s[1..n + 1]
    ensures (s + "/")[n + 1..] == s[n + 1..] + "/"
    ensures s[n + 1..] == "" || s[n + 1..][|s[n + 1..]| - 1] != '/'
  {
    assert s[n + 1..] == "" || s[n + 1..][|s[n + 1..]| - 1] == s[|s| - 1];
  }

  lemma TrailingSlashTolerated(p: Pattern, s: string)
    requires Run(p, s).Some? && (s == "" || s[|s| - 1] != '/')
    ensures Run(p, s + "/").Some?
  {
    AcceptsTrailingSlash(p, s, Run(p, s).value);
    RunComplete(p, s + "/", Run(p, s).value);
  }

  /** Dropping the `/` the path ends in: a prefix that stops before it is
      unchanged, and the suffix after the prefix loses it. */
  lemma SlashDropped(s: string, n: nat)
    requires n < |s|
    ensures (s + "/")[1..n + 1] == s[1..n + 1]
    ensures (s + "/")[n + 1..] == s[n + 1..] + "/"
  {
  }

  /** The converse of AcceptsTrailingSlash: when literals are plain and the
      pattern does not end in a wildcard, a match of the path with `/`
      appended is a match of the path with the same captures. The last
      segment cannot consume that `/`: a literal or a named capture holds no
      `/`, so only the optional `\/?` can. */
  lemma {:induction false} AcceptsWithoutTrailingSlash(p: Pattern, s: string, caps: seq<string>)
    requires LiteralsPlain(p) && (p == [] || !p[|p| - 1].Wild?)
    requires Accepts(p, s + "/", caps)
    ensures Accepts(p, s, caps)
    decreases |p|
  {
    if p == [] {
      assert (s + "/")[|s|] == '/';
    } else {
      PlainTail(p);
      if p[0].Lit? {
        var n := |p[0].text|;
        LitBeforeSlash(p, s, caps);
        AcceptsWithoutTrailingSlash(p[1..], s[n + 1..], caps);
        LitAccepts(p, s, caps);
      } else {
        var n := |caps[0]|;
        CaptureBeforeSlash(p, s, caps);
        AcceptsWithoutTrailingSlash(p[1..], s[n + 1..], caps[1..]);
        CaptureAccepts(p, s, caps);
      }
    }
  }

  /** The conditions of AcceptsWithoutTrailingSlash pass to the rest. */
  lemma PlainTail(p: Pattern)
    requires p != [] && LiteralsPlain(p) && !p[|p| - 1].Wild?
    ensures LiteralsPlain(p[1..]) && (p[1..] == [] || !p[1..][|p[1..]| - 1].Wild?)
  {
    forall i | 0 <= i < |p[1..]| && p[1..][i].Lit?
      ensures p[1..][i].text != "" && '/' !in p[1..][i].text
    {
      assert p[1..][i] == p[i + 1];
    }
    assert p[1..] == [] || p[1..][|p[1..]| - 1] == p[|p| - 1];
  }

  /** A plain literal first segment of a match of `s + "/"` ends inside `s`. */
  lemma LitBeforeSlash(p: Pattern, s: string, caps: seq<string>)
    requires p != [] && p[0].Lit? && p[0].text != "" && '/' !in p[0].text
    requires Accepts(p, s + "/", caps)
    ensures s != "" && s[0] == '/' && |p[0].text| < |s|
    ensures SameIgnoringCase(s[1..|p[0].text| + 1], p[0].text)
    ensures Accepts(p[1..], s[|p[0].text| + 1..] + "/", caps)
  {
    var t, l := s + "/", p[0].text;
    var n := |l|;
    assert t[|s|] == '/';
    assert Fold(t[1..n + 1][n - 1]) == Fold(l[n - 1]) && t[1..n + 1][n - 1] == t[n];
    assert n < |s|;
    SlashDropped(s, n);
  }

  /** A capture that is a named one, or a wildcard followed by more
      segments, ends inside `s` in a match of `s + "/"`. */
  lemma CaptureBeforeSlash(p: Pattern, s: string, caps: seq<string>)
    requires p != [] && !p[0].Lit? && (p[0].Wild? ==> p[1..] != [])
    requires Accepts(p, s + "/", caps)
    ensures s != "" && s[0] == '/'
    ensures |caps| > 0 && |caps[0]| < |s| && caps[0] == s[1..|caps[0]| + 1]
    ensures p[0].Param? ==> caps[0] != "" && '/' !in caps[0]
    ensures Accepts(p[1..], s[|caps[0]| + 1..] + "/", caps[1..])
  {
    var t := s + "/";
    var n := |caps[0]|;
    assert t[|s|] == '/';
    if p[0].Param? {
      assert caps[0][n - 1] == t[n];
    }
    assert n < |s|;
    SlashDropped(s, n);
  }

  /** The trailing `/` is optional for patterns not ending in a wildcard: the
      path with `/` appended matches only if the path does. */
  lemma TrailingSlashOptional(p: Pattern, s: string)
    requires LiteralsPlain(p) && (p == [] || !p[|p| - 1].Wild?)
    ensures Run(p, s + "/").Some? ==> Run(p, s).Some?
  {
    if Run(p, s + "/").Some? {
      AcceptsWithoutTrailingSlash(p, s, Run(p, s + "/").value);
      RunComplete(p, s, Run(p, s + "/").value);
    }
  }

  // `/x` and `/x/` match the same templates, for every template whose
  // compiled pattern does not end in a wildcard segment (templates such as
  // `/a/*/`, `/a/*x` and `/a/*//b` do end in one).
  lemma TemplateIgnoresTrailingSlash(template: string, s: string)
    requires s == "" || s[|s| - 1] != '/'
    requires Compile(template) == [] || !Compile(template)[|Compile(template)| - 1].Wild?
    ensures Run(Compile(template), s + "/").Some? <==> Run(Compile(template), s).Some?
  {
    CompileLiteralsPlain(template);
    TrailingSlashOptional(Compile(template), s);
    if Run(Compile(template), s).Some? {
      TrailingSlashTolerated(Compile(template), s);
    }
  }

  // The exception: a final `(.*)` may capture nothing after the `/`, so the
  // template `/a/*` matches `/a/` (capturing "") but not `/a`.
  lemma WildEndNeedsSlash()
    ensures Compile("/a/*") == [Lit("a"), Wild]
    ensures Run([Lit("a"), Wild], "/a/") == Some([""])
    ensures Run([Lit("a"), Wild], "/a").None?
  {
    CompileWildEnd();
    WildEndMatchesSlash();
    WildEndRejectsBare();
  }

  lemma CompileWildEnd()
    ensures Compile("/a/*") == [Lit("a"), Wild]
  {
    assert ["", "a", "*"][1..] == ["a", "*"] && ["a", "*"][1..] == ["*"] && ["*"][1..] == [];
    assert Join(["", "a", "*"]) == "/a/*";
    SplitJoin(["", "a", "*"]);
  }

  lemma WildEndMatchesSlash()
    ensures Run([Lit("a"), Wild], "/a/") == Some([""])
  {
    assert [Lit("a"), Wild][1..] == [Wild];
    assert "/a/"[1..2] == "a" && "/a/"[2..] == "/";
    assert SameIgnoringCase("/a/"[1..2], "a");
    SoleWildCapturesRest("/");
  }

  lemma WildEndRejectsBare()
    ensures Run([Lit("a"), Wild], "/a").None?
  {
    assert [Lit("a"), Wild][1..] == [Wild];
    assert "/a"[1..2] == "a" && "/a"[2..] == "";
  }

  lemma SameIgnoringCaseSlice(s: string, s2: string, i: nat, j: nat)
    requires SameIgnoringCase(s, s2) && i <= j <= |s|
    ensures SameIgnoringCase(s[i..j], s2[i..j])
  {
    var a, b := s[i..j], s2[i..j];
    forall k | 0 <= k < |a| ensures Fold(a[k]) == Fold(b[k]) {
      assert a[k] == s[i + k] && b[k] == s2[i + k];
    }
  }

  /** A literal first segment still matches after the path's case changes. */
  lemma LitIgnoresCase(p: Pattern, s: string, s2: string, caps: seq<string>, restCaps2: seq<string>)
    requires p != [] && p[0].Lit? && Accepts(p, s, caps) && SameIgnoringCase(s, s2)
    requires Accepts(p[1..], s2[|p[0].text| + 1..], restCaps2)
    ensures Accepts(p, s2, restCaps2)
  {
    var n := |p[0].text|;
    assert Fold(s2[0]) == Fold(s[0]);
    SameIgnoringCaseSlice(s, s2, 1, n + 1);
  }

  /** A capturing first segment still matches after the path's case changes,
      capturing the same span of the new path. */
  lemma CaptureIgnoresCase(p: Pattern, s: string, s2: string, caps: seq<string>, restCaps2: seq<string>)
    requires p != [] && !p[0].Lit? && Accepts(p, s, caps) && SameIgnoringCase(s, s2)
    requires Accepts(p[1..], s2[|caps[0]| + 1..], restCaps2)
    ensures Accepts(p, s2, [s2[1..|caps[0]| + 1]] + restCaps2)
  {
    var n := |caps[0]|;
    var c2 := s2[1..n + 1];
    assert Fold(s2[0]) == Fold(s[0]);
    assert p[0].Param? ==> '/' !in c2 by {
      forall i | 0 <= i < n && p[0].Param? ensures c2[i] != '/' {
        assert c2[i] == s2[1 + i] && caps[0][i] == s[1 + i];
        assert caps[0][i] in caps[0];
        assert Fold(s[1 + i]) == Fold(s2[1 + i]);
      }
    }
    assert ([c2] + restCaps2)[1..] == restCaps2;
  }

  /** Changing the case of ASCII letters in the path never changes whether it
      matches: the new path has a match with as many captures (each taken
      from the new path, in its own spelling). */
  lemma {:induction false} AcceptsIgnoresCase(p: Pattern, s: string, s2: string, caps: seq<string>)
    returns (caps2: seq<string>)
    requires Accepts(p, s, caps) && SameIgnoringCase(s, s2)
    ensures Accepts(p, s2, caps2) && |caps2| == |caps|
    decreases |p|
  {
    if p == [] {
      caps2 := [];
    } else {
      var n := if p[0].Lit? then |p[0].text| else |caps[0]|;
      SameIgnoringCaseSlice(s, s2, n + 1, |s|);
      assert s[n + 1..|s|] == s[n + 1..] && s2[n + 1..|s|] == s2[n + 1..];
      var rest := if p[0].Lit? then caps else caps[1..];
      var restCaps2 := AcceptsIgnoresCase(p[1..], s[n + 1..], s2[n + 1..], rest);
      if p[0].Lit? {
        LitIgnoresCase(p, s, s2, caps, restCaps2);
        caps2 := restCaps2;
      } else {
        CaptureIgnoresCase(p, s, s2, caps, restCaps2);
        caps2 := [s2[1..|caps[0]| + 1]] + restCaps2;
      }
    }
  }

  lemma MatchIgnoresCase(p: Pattern, s: string, s2: string)
    requires SameIgnoringCase(s, s2)
    ensures Run(p, s).Some? <==> Run(p, s2).Some?
  {
    if Run(p, s).Some? {
      var caps2 := AcceptsIgnoresCase(p, s, s2, Run(p, s).value);
      RunComplete(p, s2, caps2);
    }
    if Run(p, s2).Some? {
      var caps := AcceptsIgnoresCase(p, s2, s, Run(p, s2).value);
      RunComplete(p, s, caps);
    }
  }
}
