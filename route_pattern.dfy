/** The path-template compiler of MiniRouter (`parse`).
    A template such as `/api/users/:id/export/:format` is split on `/` and each piece
    becomes a literal, a named capture or a wildcard capture. The compiled
    regular expression is represented by its sequence of segment kinds; its
    matching semantics is given in module RegexMatch. */
module RoutePattern {

  datatype Option<T> = None | Some(value: T)

  /** One `/`-prefixed piece of the compiled pattern:
      Lit(s)   is the regex text `/s` (pasted unescaped),
      Param(n) is `/([^/]+?)` bound under key n,
      Wild     is `/(.*)` bound under key `wild`. */
  datatype Seg = Lit(text: string) | Param(name: string) | Wild

  type Pattern = seq<Seg>

  // ---------------------------------------------------------------------------
  // JavaScript's String.prototype.split('/') and its inverse
  // ---------------------------------------------------------------------------

  /** The pieces joined back with `/` between them. */
  function Join(pieces: seq<string>): string
    requires |pieces| >= 1
  {
    if |pieces| == 1 then pieces[0] else pieces[0] + "/" + Join(pieces[1..])
  }

  /** `s.split('/')`: always at least one piece, no piece holds a `/`, and
      joining the pieces with `/` gives `s` back. */
  function Split(s: string): (r: seq<string>)
    ensures |r| >= 1
    ensures forall i :: 0 <= i < |r| ==> '/' !in r[i]
    ensures Join(r) == s
  {
    if s == "" then [""]
    else if s[0] == '/' then
      assert s == "" + "/" + s[1..];
      [""] + Split(s[1..])
    else
      var rest := Split(s[1..]);
      assert s[0] != '/';
      [[s[0]] + rest[0]] + rest[1..]
  }

  /** A slash-free string is a single piece. */
  lemma {:induction false} SplitNoSlash(a: string)
    requires '/' !in a
    ensures Split(a) == [a]
  {
    if a != "" {
      assert '/' !in a[1..] by {
        forall i | 0 <= i < |a[1..]| ensures a[1..][i] != '/' { assert a[1..][i] == a[i + 1]; }
      }
      SplitNoSlash(a[1..]);
      assert [a[0]] + a[1..] == a;
    }
  }

  /** Splitting distributes over a `/` separator. */
  lemma {:induction false} SplitAtSlash(a: string, b: string)
    ensures Split(a + "/" + b) == Split(a) + Split(b)
  {
    if a == "" {
      assert a + "/" + b == "/" + b;
      assert ("/" + b)[1..] == b;
    } else {
      var s := a + "/" + b;
      assert s[0] == a[0];
      assert s[1..] == a[1..] + "/" + b;
      SplitAtSlash(a[1..], b);
    }
  }

  /** The other half of the round trip: splitting the join of slash-free
      pieces gives the same pieces. */
  lemma {:induction false} SplitJoin(pieces: seq<string>)
    requires |pieces| >= 1
    requires forall i :: 0 <= i < |pieces| ==> '/' !in pieces[i]
    ensures Split(Join(pieces)) == pieces
  {
    SplitNoSlash(pieces[0]);
    if |pieces| > 1 {
      SplitJoin(pieces[1..]);
      SplitAtSlash(pieces[0], Join(pieces[1..]));
      assert [pieces[0]] + pieces[1..] == pieces;
    }
  }

  // ---------------------------------------------------------------------------
  // Compilation, as a specification
  // ---------------------------------------------------------------------------

  /** The kind of segment a non-empty piece compiles to, decided by its first
      character. */
  function Classify(piece: string): Seg
    requires piece != ""
  {
    if piece[0] == '*' then Wild
    else if piece[0] == ':' then Param(piece[1..])
    else Lit(piece)
  }

  /** The split template with the one leading empty piece (from a leading `/`)
      dropped. */
  function Pieces(template: string): seq<string>
  {
    var arr := Split(template);
    if arr[0] == "" then arr[1..] else arr
  }

  /** Pieces are compiled in order until the first empty one (`while (tmp)`). */
  function CompilePieces(pieces: seq<string>): Pattern
  {
    if pieces == [] || pieces[0] == "" then []
    else [Classify(pieces[0])] + CompilePieces(pieces[1..])
  }

  function Compile(template: string): Pattern
  {
    CompilePieces(Pieces(template))
  }

  /** The key a capture segment is bound under. */
  function KeyOf(seg: Seg): seq<string>
  {
    match seg
    case Lit(_) => []
    case Param(name) => [name]
    case Wild => ["wild"]
  }

  /** The parameter names of a pattern, one per capture segment. */
  function Keys(p: Pattern): seq<string>
  {
    if p == [] then [] else KeyOf(p[0]) + Keys(p[1..])
  }

  lemma {:induction false} KeysAppend(a: Pattern, b: Pattern)
    ensures Keys(a + b) == Keys(a) + Keys(b)
  {
    if a == [] {
      assert a + b == b;
    } else {
      assert (a + b)[0] == a[0];
      assert (a + b)[1..] == a[1..] + b;
      KeysAppend(a[1..], b);
      assert KeyOf(a[0]) + (Keys(a[1..]) + Keys(b)) == (KeyOf(a[0]) + Keys(a[1..])) + Keys(b);
    }
  }

  /** Characters with a meaning in JavaScript regular-expression syntax. */
  predicate IsRegexSyntax(c: char)
  {
    c in "^$\\.*+?()[]{}|"
  }

  /** Every literal segment stands for itself once pasted into the regular
      expression: the segment semantics of RegexMatch is exact for these. */
  predicate LiteralsRegexSafe(p: Pattern)
  {
    forall i :: 0 <= i < |p| ==> p[i].Lit? ==> forall j :: 0 <= j < |p[i].text| ==> !IsRegexSyntax(p[i].text[j])
  }

  /** Every literal segment is a non-empty run without `/`, as compilation
      makes it (CompileLiteralsPlain). */
  predicate LiteralsPlain(p: Pattern)
  {
    forall i :: 0 <= i < |p| ==> p[i].Lit? ==> p[i].text != "" && '/' !in p[i].text
  }

  // ---------------------------------------------------------------------------
  // The compiler as the source runs it
  // ---------------------------------------------------------------------------

  /** `parse`: walks the pieces with a shifting cursor, appending one pattern
      segment per piece and one key per capture segment, and stops at the
      first empty piece or when the pieces run out. */
  method Parse(str: string) returns (keys: seq<string>, pattern: Pattern)
    ensures pattern == Compile(str)
    ensures keys == Keys(pattern)
  {
    var arr := Split(str);
    if arr[0] == "" {
      arr := arr[1..];
    }
    ghost var pieces := arr;
    // `arr.shift()` on an empty array yields undefined, which is falsy like "".
    var tmp := "";
    if |arr| > 0 {
      tmp, arr := arr[0], arr[1..];
    }
    assert [tmp] + arr == pieces || (pieces == [] && tmp == "" && arr == []);
    keys, pattern := [], [];
    while tmp != ""
      invariant pattern + CompilePieces([tmp] + arr) == CompilePieces(pieces)
      invariant keys == Keys(pattern)
      decreases |arr|, |tmp|
    {
      ParseStep(pattern, tmp, arr);
      var c := tmp[0];
      if c == '*' {
        keys := keys + ["wild"];
        pattern := pattern + [Wild];
      } else if c == ':' {
        keys := keys + [tmp[1..]];
        pattern := pattern + [Param(tmp[1..])];
      } else {
        pattern := pattern + [Lit(tmp)];
      }
      if |arr| > 0 {
        assert arr == [arr[0]] + arr[1..];
        tmp, arr := arr[0], arr[1..];
      } else {
        tmp := "";
      }
    }
  }

  /** One turn of the loop in Parse: the classified piece moves from the
      pieces still to compile to the pattern built so far. */
  lemma ParseStep(prev: Pattern, tmp: string, arr: seq<string>)
    requires tmp != ""
    ensures (prev + [Classify(tmp)]) + CompilePieces(arr) == prev + CompilePieces([tmp] + arr)
    ensures Keys(prev + [Classify(tmp)]) == Keys(prev) + KeyOf(Classify(tmp))
  {
    var seg := Classify(tmp);
    assert ([tmp] + arr)[0] == tmp && ([tmp] + arr)[1..] == arr;
    assert CompilePieces([tmp] + arr) == [seg] + CompilePieces(arr);
    assert (prev + [seg]) + CompilePieces(arr) == prev + ([seg] + CompilePieces(arr));
    KeysAppend(prev, [seg]);
    KeysSingle(seg);
  }

  lemma KeysSingle(seg: Seg)
    ensures Keys([seg]) == KeyOf(seg)
  {
    assert [seg][1..] == [];
  }

  // ---------------------------------------------------------------------------
  // What compilation promises
  // ---------------------------------------------------------------------------

  /** Compilation keeps exactly the non-empty pieces before the first empty
      one, and classifies each of them in order. */
  lemma {:induction false} CompileKeepsLeadingPieces(pieces: seq<string>)
    ensures |CompilePieces(pieces)| <= |pieces|
    ensures |CompilePieces(pieces)| == |pieces| || pieces[|CompilePieces(pieces)|] == ""
    ensures forall i :: 0 <= i < |CompilePieces(pieces)| ==>
              pieces[i] != "" && CompilePieces(pieces)[i] == Classify(pieces[i])
  {
    if pieces != [] && pieces[0] != "" {
      CompileKeepsLeadingPieces(pieces[1..]);
    }
  }

  /** A literal segment is a whole piece of the split template: never empty,
      never holding `/`. */
  lemma CompileLiteralsPlain(template: string)
    ensures LiteralsPlain(Compile(template))
  {
    var arr := Split(template);
    var pieces := Pieces(template);
    assert forall i :: 0 <= i < |pieces| ==> '/' !in pieces[i] by {
      forall i | 0 <= i < |pieces| ensures '/' !in pieces[i] {
        if arr[0] == "" {
          assert pieces[i] == arr[i + 1];
        } else {
          assert pieces[i] == arr[i];
        }
      }
    }
    CompileKeepsLeadingPieces(pieces);
  }

  /** A trailing `/` on a template changes nothing. */
  lemma CompileIgnoresTrailingSlash(template: string)
    ensures Compile(template + "/") == Compile(template)
  {
    SplitAtSlash(template, "");
    assert template + "/" == template + "/" + "";
    var arr := Split(template);
    assert Split(template + "/") == arr + [""];
    if arr[0] == "" {
      assert (arr + [""])[1..] == arr[1..] + [""];
      CompileStopsAtEmpty(arr[1..], [""]);
    } else {
      CompileStopsAtEmpty(arr, [""]);
    }
  }

  /** An empty piece ends compilation: nothing after it is looked at. */
  lemma {:induction false} CompileStopsAtEmpty(pieces: seq<string>, rest: seq<string>)
    requires |rest| >= 1 && rest[0] == ""
    ensures CompilePieces(pieces + rest) == CompilePieces(pieces)
  {
    if pieces == [] {
      assert pieces + rest == rest;
    } else if pieces[0] != "" {
      assert (pieces + rest)[1..] == pieces[1..] + rest;
      CompileStopsAtEmpty(pieces[1..], rest);
    }
  }

  /** A doubled `/` truncates the template: `/a//b` compiles like `/a`. */
  lemma CompileStopsAtDoubleSlash(template: string, tail: string)
    ensures Compile(template + "//" + tail) == Compile(template)
  {
    var s := template + "//" + tail;
    assert s == template + "/" + ("/" + tail);
    SplitAtSlash(template, "/" + tail);
    assert "/" + tail == "" + "/" + tail;
    SplitAtSlash("", tail);
    assert Split(s) == Split(template) + ([""] + Split(tail));
    var arr := Split(template);
    if arr[0] == "" {
      assert Split(s)[1..] == arr[1..] + ([""] + Split(tail));
      CompileStopsAtEmpty(arr[1..], [""] + Split(tail));
    } else {
      CompileStopsAtEmpty(arr, [""] + Split(tail));
    }
  }

  /** The empty template and `/` both compile to the empty pattern (the bare
      root). */
  lemma RootTemplates()
    ensures Compile("") == [] && Compile("/") == []
  {
    assert Split("/") == [""] + Split("");
  }

  /** One key per capture segment, in template order: the capture segment at
      position i of the pattern owns key number |Keys(p[..i])|, and that key
      is its name (`wild` for a wildcard). Literal segments own no key. */
  lemma {:induction false} KeysInOrder(p: Pattern, i: nat)
    requires i < |p|
    ensures !p[i].Lit? ==> |Keys(p[..i])| < |Keys(p)| && Keys(p)[|Keys(p[..i])|] == (if p[i].Wild? then "wild" else p[i].name)
    ensures p[i].Lit? ==> Keys(p[..i + 1]) == Keys(p[..i])
  {
    var before, here := Keys(p[..i]), KeyOf(p[i]);
    assert p == p[..i] + [p[i]] + p[i + 1..];
    KeysAround(p[..i], p[i], p[i + 1..]);
    KeysPrefixGrows(p, i);
    if !p[i].Lit? {
      assert (before + here + Keys(p[i + 1..]))[|before|] == here[0];
    }
  }

  lemma KeysAround(a: Pattern, seg: Seg, c: Pattern)
    ensures Keys(a + [seg] + c) == Keys(a) + KeyOf(seg) + Keys(c)
  {
    KeysAppend(a + [seg], c);
    KeysAppend(a, [seg]);
    KeysSingle(seg);
  }

  lemma KeysCons(seg: Seg, p: Pattern)
    ensures Keys([seg] + p) == KeyOf(seg) + Keys(p)
  {
    assert ([seg] + p)[1..] == p;
  }

  lemma KeysPrefixGrows(p: Pattern, i: nat)
    requires i < |p|
    ensures Keys(p[..i + 1]) == Keys(p[..i]) + KeyOf(p[i])
  {
    KeysAppend(p[..i], [p[i]]);
    assert p[..i] + [p[i]] == p[..i + 1];
    assert [p[i]][1..] == [];
  }
}
