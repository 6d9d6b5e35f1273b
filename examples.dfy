/** Worked examples: the template `/api/users/:id/export/:format/test` with
    the url `/api/users/42/export/csv/test`, and the `/unimplemented` route
    the application registers. */
module RouterExamples {
  import opened RoutePattern
  import opened RegexMatch
  import opened MiniRouter

  const UserExportTemplate := "/api/users/:id/export/:format/test"
  const UserExportPieces := ["", "api", "users", ":id", "export", ":format", "test"]
  const UserExport: Pattern := [Lit("api"), Lit("users"), Param("id"), Lit("export"), Param("format"), Lit("test")]
  const UserExportUrl := "/api/users/42/export/csv/test"

  // The template is the join of its pieces, one piece at a time.
  lemma JoinFrom5() ensures Join(UserExportPieces[5..]) == ":format/test" { }
  lemma JoinFrom4() ensures Join(UserExportPieces[4..]) == "export/:format/test"
  { JoinFrom5(); assert UserExportPieces[4..][1..] == UserExportPieces[5..]; }
  lemma JoinFrom3() ensures Join(UserExportPieces[3..]) == ":id/export/:format/test"
  { JoinFrom4(); assert UserExportPieces[3..][1..] == UserExportPieces[4..]; }
  lemma JoinFrom2() ensures Join(UserExportPieces[2..]) == "users/:id/export/:format/test"
  { JoinFrom3(); assert UserExportPieces[2..][1..] == UserExportPieces[3..]; }
  lemma JoinFrom1() ensures Join(UserExportPieces[1..]) == "api/users/:id/export/:format/test"
  { JoinFrom2(); assert UserExportPieces[1..][1..] == UserExportPieces[2..]; }

  lemma SplitUserExport()
    ensures Split(UserExportTemplate) == UserExportPieces
  {
    JoinFrom1();
    SplitJoin(UserExportPieces);
  }

  lemma CompileUserExportPieces()
    ensures CompilePieces(UserExportPieces[1..]) == UserExport
  {
    var pieces := UserExportPieces;
    assert Classify(":id") == Param("id") && Classify(":format") == Param("format");
    assert Classify("api") == Lit("api") && Classify("users") == Lit("users");
    assert Classify("export") == Lit("export") && Classify("test") == Lit("test");
    assert CompilePieces(pieces[7..]) == [];
    assert CompilePieces(pieces[6..]) == UserExport[5..];
    assert CompilePieces(pieces[5..]) == UserExport[4..];
    assert CompilePieces(pieces[4..]) == UserExport[3..];
    assert CompilePieces(pieces[3..]) == UserExport[2..];
    assert CompilePieces(pieces[2..]) == UserExport[1..];
  }

  /** `/api/users/:id/export/:format/test` has two named captures, `id` and
      `format`, between four literals. */
  lemma CompileUserExport()
    ensures Compile(UserExportTemplate) == UserExport
    ensures Keys(UserExport) == ["id", "format"]
  {
    SplitUserExport();
    assert UserExportPieces[0] == "";
    assert Pieces(UserExportTemplate) == UserExportPieces[1..];
    CompileUserExportPieces();
    KeysUserExport();
  }

  lemma KeysUserExport()
    ensures Keys(UserExport) == ["id", "format"]
  {
    KeysOfShape("api", "users", "id", "export", "format", "test");
  }

  /** Four literals around two named segments yield the two names. */
  lemma KeysOfShape(a: string, b: string, x: string, c: string, y: string, d: string)
    ensures Keys([Lit(a), Lit(b), Param(x), Lit(c), Param(y), Lit(d)]) == [x, y]
  {
    var p5 := [Lit(d)];
    var p4 := [Param(y)] + p5;
    var p3 := [Lit(c)] + p4;
    var p2 := [Param(x)] + p3;
    var p1 := [Lit(b)] + p2;
    KeysSingle(Lit(d));
    KeysCons(Param(y), p5);
    KeysCons(Lit(c), p4);
    KeysCons(Param(x), p3);
    KeysCons(Lit(b), p2);
    KeysCons(Lit(a), p1);
    assert [Lit(a)] + p1 == [Lit(a), Lit(b), Param(x), Lit(c), Param(y), Lit(d)];
  }

  /** The url for given `id` and `format` values. */
  function UserExportUrlFor(id: string, format: string): string
  {
    "/api/users/" + id + "/export/" + format + "/test"
  }

  lemma UrlSpelling()
    ensures UserExportUrlFor("42", "csv") == UserExportUrl
  {
  }

  lemma UrlShape(id: string, format: string)
    ensures UserExportUrlFor(id, format)
            == "/" + "api" + ("/" + "users" + ("/" + id + ("/" + "export" + ("/" + format + ("/" + "test" + "")))))
  {
    assert "/api/users/" == "/" + "api" + "/" + "users" + "/";
    assert "/export/" == "/" + "export" + "/";
    assert "/test" == "/" + "test" + "";
  }

  /** The last three segments, `export/:format/test`. */
  lemma AcceptsExportTail(format: string)
    requires format != "" && '/' !in format
    ensures Accepts(UserExport[3..], "/" + "export" + ("/" + format + ("/" + "test" + "")), [format])
  {
    assert [Lit("test")] + [] == UserExport[5..];
    assert [Param("format")] + UserExport[5..] == UserExport[4..];
    assert [Lit("export")] + UserExport[4..] == UserExport[3..];
    var x5 := "/" + "test" + "";
    var x4 := "/" + format + x5;
    assert Accepts([], "", []);
    AcceptsLit("test", [], "", []);
    AcceptsParam("format", format, UserExport[5..], x5, []);
    AcceptsLit("export", UserExport[4..], x4, [format]);
  }

  /** Matched one segment at a time, from the end. */
  lemma AcceptsUserExport(id: string, format: string)
    requires id != "" && '/' !in id && format != "" && '/' !in format
    ensures Accepts(UserExport, UserExportUrlFor(id, format), [id, format])
  {
    assert [Param("id")] + UserExport[3..] == UserExport[2..];
    assert [Lit("users")] + UserExport[2..] == UserExport[1..];
    assert [Lit("api")] + UserExport[1..] == UserExport;
    var x3 := "/" + "export" + ("/" + format + ("/" + "test" + ""));
    var x2 := "/" + id + x3;
    var x1 := "/" + "users" + x2;
    AcceptsExportTail(format);
    AcceptsParam("id", id, UserExport[3..], x3, [format]);
    AcceptsLit("users", UserExport[2..], x2, [id, format]);
    AcceptsLit("api", UserExport[1..], x1, [id, format]);
    UrlShape(id, format);
  }

  lemma UserExportHasNoWild()
    ensures forall i :: 0 <= i < |UserExport| ==> !UserExport[i].Wild?
  {
    forall i | 0 <= i < |UserExport| ensures !UserExport[i].Wild? {
      assert UserExport[i] in UserExport;
    }
  }

  /** A url of this shape matches, and its captures are forced: the values
      of `id` and `format` in that order. */
  lemma RunUserExport(id: string, format: string)
    requires id != "" && '/' !in id && format != "" && '/' !in format
    ensures Run(UserExport, UserExportUrlFor(id, format)) == Some([id, format])
  {
    AcceptsUserExport(id, format);
    UserExportHasNoWild();
    RunForced(UserExport, UserExportUrlFor(id, format), [id, format]);
  }

  /** A table of one registration: a matching url selects the registered
      handler (or the default one, when none was given) for the registered
      verb, with the captures bound under the pattern's keys. */
  lemma SoleEntrySelects(verb: Verb, path: string, handler: Option<Handler>, url: string, caps: seq<string>)
    requires Run(Compile(path), url) == Some(caps)
    ensures WellFormedTable([NewEntry(verb, path, handler)])
    ensures Select([NewEntry(verb, path, handler)], url, verb.Name())
            == Selection(if handler.Some? then handler.value else DefaultHandler, Bind(Keys(Compile(path)), caps))
  {
    var table := [NewEntry(verb, path, handler)];
    assert WellFormed(table[0]);
    FirstMatchingEntryDecides(table, url, verb.Name(), 0);
  }

  lemma BindUserExport(id: string, format: string)
    ensures Bind(["id", "format"], [id, format]) == map["id" := id, "format" := format]
  {
    assert ["id", "format"][..1] == ["id"] && [id, format][..1] == [id];
    assert ["id"][..0] == [] && [id][..0] == [];
    assert Bind(["id"], [id]) == map["id" := id];
    assert Bind(["id", "format"], [id, format]) == Bind(["id"], [id])["format" := format];
  }

  /** A GET route registered for the template, asked for a url of its shape,
      yields params `{ id, format }` taken from the url. */
  lemma UserExportParams(h: Handler, id: string, format: string)
    requires id != "" && '/' !in id && format != "" && '/' !in format
    ensures WellFormedTable([NewEntry(GET, UserExportTemplate, Some(h))])
    ensures Select([NewEntry(GET, UserExportTemplate, Some(h))], UserExportUrlFor(id, format), "GET")
            == Selection(h, map["id" := id, "format" := format])
  {
    CompileUserExport();
    RunUserExport(id, format);
    SoleEntrySelects(GET, UserExportTemplate, Some(h), UserExportUrlFor(id, format), [id, format]);
    BindUserExport(id, format);
  }

  /** The url `/api/users/42/export/csv/test` yields
      `{ id: "42", format: "csv" }`. */
  lemma UserExportExample(h: Handler)
    ensures WellFormedTable([NewEntry(GET, UserExportTemplate, Some(h))])
    ensures Select([NewEntry(GET, UserExportTemplate, Some(h))], UserExportUrl, "GET")
            == Selection(h, map["id" := "42", "format" := "csv"])
  {
    UserExportParams(h, "42", "csv");
    UrlSpelling();
  }

  lemma CompileUnimplemented()
    ensures Compile("/unimplemented") == [Lit("unimplemented")]
  {
    var pieces := ["", "unimplemented"];
    assert Join(pieces) == "/unimplemented";
    SplitJoin(pieces);
    assert Pieces("/unimplemented") == ["unimplemented"];
    assert Classify("unimplemented") == Lit("unimplemented");
    assert CompilePieces(["unimplemented"][1..]) == [];
  }

  lemma RunUnimplemented()
    ensures Run([Lit("unimplemented")], "/unimplemented") == Some([])
  {
    AcceptsLit("unimplemented", [], "", []);
    assert "/" + "unimplemented" + "" == "/unimplemented";
    RunForced([Lit("unimplemented")], "/unimplemented", []);
  }

  lemma LetterIsNotSyntax(c: char)
    requires 'a' <= c <= 'z'
    ensures !IsRegexSyntax(c)
  {
  }

  lemma UnimplementedRegexSafe()
    ensures LiteralsRegexSafe([Lit("unimplemented")])
  {
    var t := "unimplemented";
    forall j | 0 <= j < |t| ensures !IsRegexSyntax(t[j]) {
      assert 'a' <= t[j] <= 'z';
      LetterIsNotSyntax(t[j]);
    }
  }

  /** The application registers `GET /unimplemented` without a handler, so
      that url reaches the default handler, with no params. */
  method UnimplementedRoute() returns (handler: Handler, params: map<string, string>)
    ensures handler == DefaultHandler && params == map[]
  {
    CompileUnimplemented();
    UnimplementedRegexSafe();
    RunUnimplemented();
    SoleEntrySelects(GET, "/unimplemented", None, "/unimplemented", []);
    var router := new Router();
    router.Get("/unimplemented", None);
    assert router.table == [NewEntry(GET, "/unimplemented", None)];
    handler, params := router.Handle("/unimplemented", "GET");
  }
}
