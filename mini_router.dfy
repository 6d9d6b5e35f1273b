/** The MiniRouter class: a route table filled by `add` and its verb
    shorthands, and `handle`, which picks the handler and the path parameters
    for a request.

    The source keys its tables by the RegExp object that each `add` builds
    afresh; JavaScript maps compare such keys by identity, so every `add`
    makes a new entry and the entries are visited in insertion order. The
    table is therefore modelled as a sequence of entries. Handlers are opaque
    callbacks: they are named by `Handler` values and never run. */
module MiniRouter {
  import opened RoutePattern
  import opened RegexMatch

  /** The METHODS enumeration; each value is the method's name. */
  datatype Verb = GET | POST | PUT | DELETE | PATCH | OPTIONS | HEAD | CONNECT | TRACE
  {
    function Name(): string
    {
      match this
      case GET => "GET"
      case POST => "POST"
      case PUT => "PUT"
      case DELETE => "DELETE"
      case PATCH => "PATCH"
      case OPTIONS => "OPTIONS"
      case HEAD => "HEAD"
      case CONNECT => "CONNECT"
      case TRACE => "TRACE"
    }
  }

  /** A registered callback, or the module's `defaultHandler`. */
  datatype Handler = DefaultHandler | Registered(id: nat)

  /** One registration: the compiled pattern, its keys and its method map
      (method name to handler). */
  datatype Entry = Entry(pattern: Pattern, keys: seq<string>, methods: map<string, Handler>)

  /** What `add` stores: the keys are those of the pattern and the method map
      has exactly one pair. */
  predicate WellFormed(e: Entry)
  {
    e.keys == Keys(e.pattern) && |e.methods| == 1
  }

  predicate WellFormedTable(table: seq<Entry>)
  {
    forall i :: 0 <= i < |table| ==> WellFormed(table[i])
  }

  /** The entry that `add(verb, path, handler)` creates. */
  function NewEntry(verb: Verb, path: string, handler: Option<Handler>): Entry
  {
    var p := Compile(path);
    Entry(p, Keys(p), map[verb.Name() := if handler.Some? then handler.value else DefaultHandler])
  }

  // ---------------------------------------------------------------------------
  // Dispatch, as a specification
  // ---------------------------------------------------------------------------

  datatype Hit = Hit(index: nat, captures: seq<string>)

  /** The first entry, from position `from` on, whose pattern matches `url`,
      with the capture groups of that match. */
  function FirstMatch(table: seq<Entry>, url: string, from: nat): (r: Option<Hit>)
    requires from <= |table|
    decreases |table| - from
    ensures r.Some? ==>
              && from <= r.value.index < |table|
              && Run(table[r.value.index].pattern, url) == Some(r.value.captures)
              && forall j :: from <= j < r.value.index ==> Run(table[j].pattern, url).None?
    ensures r.None? <==> forall j :: from <= j < |table| ==> Run(table[j].pattern, url).None?
  {
    if from == |table| then None
    else
      var m := Run(table[from].pattern, url);
      if m.Some? then
        assert !(forall j :: from <= j < |table| ==> Run(table[j].pattern, url).None?) by {
          assert from <= from < |table| && Run(table[from].pattern, url).Some?;
        }
        Some(Hit(from, m.value))
      else
        var r := FirstMatch(table, url, from + 1);
        assert forall j :: from <= j < from + 1 ==> Run(table[j].pattern, url).None?;
        r
  }

  /** `handlers.get(rx)?.get(method) || defaultHandler`. */
  function Lookup(methods: map<string, Handler>, verbName: string): Handler
  {
    if verbName in methods then methods[verbName] else DefaultHandler
  }

  /** `params[keys[i]] = matches[i + 1]` for i = 0, 1, ...: a later key
      overwrites an earlier one with the same name. */
  function Bind(keys: seq<string>, caps: seq<string>): map<string, string>
    requires |keys| == |caps|
  {
    if keys == [] then map[]
    else
      var n := |keys| - 1;
      Bind(keys[..n], caps[..n])[keys[n] := caps[n]]
  }

  datatype Selection = Selection(handler: Handler, params: map<string, string>)

  /** The handler `handle` calls and the params it attaches to the request. */
  function Select(table: seq<Entry>, url: string, verbName: string): Selection
    requires WellFormedTable(table)
  {
    match FirstMatch(table, url, 0)
    case None => Selection(DefaultHandler, map[])
    case Some(Hit(i, caps)) => Selection(Lookup(table[i].methods, verbName), Bind(table[i].keys, caps))
  }

  // ---------------------------------------------------------------------------
  // The router object
  // ---------------------------------------------------------------------------

  class Router
  {
    /** Entries in insertion order (the `handlers` and `keys` maps together). */
    var table: seq<Entry>

    /** Every stored entry is well formed (its keys are its pattern's keys
        and its method map holds one pair) and no literal segment of its
        pattern holds a regular-expression metacharacter, so `Run` is what
        its expression matches. */
    ghost predicate Valid()
      reads this
    {
      WellFormedTable(table) &&
      forall i :: 0 <= i < |table| ==> LiteralsRegexSafe(table[i].pattern)
    }

    constructor ()
      ensures Valid() && table == []
    {
      table := [];
    }

    /** `add`: compiles the template and appends one entry holding the single
        pair method -> handler, `defaultHandler` when no handler is given. */
    method Add(verb: Verb, path: string, handler: Option<Handler>)
      requires Valid() && LiteralsRegexSafe(Compile(path))
      modifies this
      ensures Valid()
      ensures table == old(table) + [NewEntry(verb, path, handler)]
    {
      var h := if handler.Some? then handler.value else DefaultHandler;
      var keys, pattern := Parse(path);
      table := table + [Entry(pattern, keys, map[verb.Name() := h])];
      assert WellFormed(table[|table| - 1]);
    }

    method Get(path: string, handler: Option<Handler>)
      requires Valid() && LiteralsRegexSafe(Compile(path))
      modifies this
      ensures Valid() && table == old(table) + [NewEntry(GET, path, handler)]
    {
      Add(GET, path, handler);
    }

    method Post(path: string, handler: Option<Handler>)
      requires Valid() && LiteralsRegexSafe(Compile(path))
      modifies this
      ensures Valid() && table == old(table) + [NewEntry(POST, path, handler)]
    {
      Add(POST, path, handler);
    }

    method Put(path: string, handler: Option<Handler>)
      requires Valid() && LiteralsRegexSafe(Compile(path))
      modifies this
      ensures Valid() && table == old(table) + [NewEntry(PUT, path, handler)]
    {
      Add(PUT, path, handler);
    }

    method Delete(path: string, handler: Option<Handler>)
      requires Valid() && LiteralsRegexSafe(Compile(path))
      modifies this
      ensures Valid() && table == old(table) + [NewEntry(DELETE, path, handler)]
    {
      Add(DELETE, path, handler);
    }

    method Patch(path: string, handler: Option<Handler>)
      requires Valid() && LiteralsRegexSafe(Compile(path))
      modifies this
      ensures Valid() && table == old(table) + [NewEntry(PATCH, path, handler)]
    {
      Add(PATCH, path, handler);
    }

    method Options(path: string, handler: Option<Handler>)
      requires Valid() && LiteralsRegexSafe(Compile(path))
      modifies this
      ensures Valid() && table == old(table) + [NewEntry(OPTIONS, path, handler)]
    {
      Add(OPTIONS, path, handler);
    }

    method Head(path: string, handler: Option<Handler>)
      requires Valid() && LiteralsRegexSafe(Compile(path))
      modifies this
      ensures Valid() && table == old(table) + [NewEntry(HEAD, path, handler)]
    {
      Add(HEAD, path, handler);
    }

    method Connect(path: string, handler: Option<Handler>)
      requires Valid() && LiteralsRegexSafe(Compile(path))
      modifies this
      ensures Valid() && table == old(table) + [NewEntry(CONNECT, path, handler)]
    {
      Add(CONNECT, path, handler);
    }

    method Trace(path: string, handler: Option<Handler>)
      requires Valid() && LiteralsRegexSafe(Compile(path))
      modifies this
      ensures Valid() && table == old(table) + [NewEntry(TRACE, path, handler)]
    {
      Add(TRACE, path, handler);
    }

    /** `handle`: scans the entries in insertion order and stops at the first
        whose pattern matches the url; takes its handler for the method (or
        the default handler) and zips its keys with the capture groups. The
        params are what the source assigns to `req.params`; the handler is
        returned instead of being awaited. */
    method Handle(url: string, verbName: string) returns (handler: Handler, params: map<string, string>)
      requires Valid()
      ensures Selection(handler, params) == Select(table, url, verbName)
    {
      handler := DefaultHandler;
      var keys: seq<string> := [];
      var matches: seq<string> := [];
      var i := 0;
      while i < |table|
        invariant 0 <= i <= |table|
        invariant forall j :: 0 <= j < i ==> Run(table[j].pattern, url).None?
        invariant handler == DefaultHandler && keys == [] && matches == []
      {
        var m := Run(table[i].pattern, url);
        if m.Some? {
          matches := m.value;
          handler := Lookup(table[i].methods, verbName);
          keys := table[i].keys;
          break;
        }
        i := i + 1;
      }
      if i < |table| {
        FirstMatchAt(table, url, i);
      }
      assert |keys| == |matches|;
      params := map[];
      for k := 0 to |keys|
        invariant params == Bind(keys[..k], matches[..k])
      {
        BindStep(keys, matches, k);
        params := params[keys[k] := matches[k]];
      }
      assert keys[..|keys|] == keys && matches[..|matches|] == matches;
    }
  }

  // ---------------------------------------------------------------------------
  // What dispatch promises
  // ---------------------------------------------------------------------------

  /** FirstMatch finds entry i when i matches and no entry before it does. */
  lemma FirstMatchAt(table: seq<Entry>, url: string, i: nat)
    requires i < |table| && Run(table[i].pattern, url).Some?
    requires forall j :: 0 <= j < i ==> Run(table[j].pattern, url).None?
    ensures FirstMatch(table, url, 0) == Some(Hit(i, Run(table[i].pattern, url).value))
  {
    var r := FirstMatch(table, url, 0);
    assert r.Some?;
    assert r.value.index == i;
  }

  lemma BindStep(keys: seq<string>, caps: seq<string>, k: nat)
    requires |keys| == |caps| && k < |keys|
    ensures Bind(keys[..k + 1], caps[..k + 1]) == Bind(keys[..k], caps[..k])[keys[k] := caps[k]]
  {
    assert keys[..k + 1][..k] == keys[..k] && caps[..k + 1][..k] == caps[..k];
  }

  /** The first matching entry decides: its handler for the method (or the
      default handler) and its keys bound to the captures of that match. */
  lemma FirstMatchingEntryDecides(table: seq<Entry>, url: string, verbName: string, i: nat)
    requires WellFormedTable(table) && i < |table|
    requires Run(table[i].pattern, url).Some?
    requires forall j :: 0 <= j < i ==> Run(table[j].pattern, url).None?
    ensures Select(table, url, verbName)
            == Selection(Lookup(table[i].methods, verbName), Bind(table[i].keys, Run(table[i].pattern, url).value))
  {
    FirstMatchAt(table, url, i);
  }

  /** When no pattern matches, the default handler runs with no params. */
  lemma NoMatchSelectsDefault(table: seq<Entry>, url: string, verbName: string)
    requires WellFormedTable(table)
    requires forall j :: 0 <= j < |table| ==> Run(table[j].pattern, url).None?
    ensures Select(table, url, verbName) == Selection(DefaultHandler, map[])
  {
  }

  /** A method the first matching entry lacks leads to the default handler,
      whatever later entries for the same url hold. */
  lemma MethodMismatchDoesNotFallThrough(table: seq<Entry>, url: string, verbName: string, i: nat)
    requires WellFormedTable(table) && i < |table|
    requires Run(table[i].pattern, url).Some? && verbName !in table[i].methods
    requires forall j :: 0 <= j < i ==> Run(table[j].pattern, url).None?
    ensures Select(table, url, verbName).handler == DefaultHandler
  {
    FirstMatchingEntryDecides(table, url, verbName, i);
  }

  /** Registration order is priority: entries appended after one that matches
      are never consulted. */
  lemma LaterEntriesNeverConsulted(table: seq<Entry>, later: seq<Entry>, url: string, verbName: string, i: nat)
    requires WellFormedTable(table) && WellFormedTable(later)
    requires i < |table| && Run(table[i].pattern, url).Some?
    ensures WellFormedTable(table + later)
    ensures Select(table + later, url, verbName) == Select(table, url, verbName)
  {
    var r := FirstMatch(table, url, 0);
    assert r.Some?;
    var k := r.value.index;
    assert forall j :: 0 <= j <= k ==> (table + later)[j] == table[j];
    FirstMatchAt(table + later, url, k);
  }

  /** A newly added entry is reached only when no earlier entry matches the
      url, and then it decides. */
  lemma AppendedEntryReachedLast(table: seq<Entry>, e: Entry, url: string, verbName: string)
    requires WellFormedTable(table) && WellFormed(e)
    requires forall j :: 0 <= j < |table| ==> Run(table[j].pattern, url).None?
    ensures WellFormedTable(table + [e])
    ensures Run(e.pattern, url).Some? ==>
              Select(table + [e], url, verbName) == Selection(Lookup(e.methods, verbName), Bind(e.keys, Run(e.pattern, url).value))
    ensures Run(e.pattern, url).None? ==> Select(table + [e], url, verbName) == Selection(DefaultHandler, map[])
  {
    var t := table + [e];
    assert forall j :: 0 <= j < |table| ==> t[j] == table[j];
    if Run(e.pattern, url).Some? {
      FirstMatchingEntryDecides(t, url, verbName, |table|);
    }
  }

  /** Two registrations of one template under different methods make two
      entries, and the first one shadows the second: a request with the
      second method reaches the default handler. */
  lemma SecondMethodOnSameTemplateShadowed(table: seq<Entry>, verb1: Verb, verb2: Verb, path: string,
                                            h1: Option<Handler>, h2: Option<Handler>, url: string)
    requires WellFormedTable(table) && verb1 != verb2
    requires forall j :: 0 <= j < |table| ==> Run(table[j].pattern, url).None?
    requires Run(Compile(path), url).Some?
    ensures WellFormedTable(table + [NewEntry(verb1, path, h1), NewEntry(verb2, path, h2)])
    ensures Select(table + [NewEntry(verb1, path, h1), NewEntry(verb2, path, h2)], url, verb2.Name()).handler == DefaultHandler
  {
    var e1 := NewEntry(verb1, path, h1);
    var t := table + [e1, NewEntry(verb2, path, h2)];
    assert forall j :: 0 <= j < |table| ==> t[j] == table[j];
    assert t[|table|] == e1;
    assert verb2.Name() !in e1.methods;
    FirstMatchingEntryDecides(t, url, verb2.Name(), |table|);
  }

  // ---------------------------------------------------------------------------
  // Binding of params
  // ---------------------------------------------------------------------------

  /** Exactly the keys become params. */
  lemma {:induction false} BindDomain(keys: seq<string>, caps: seq<string>)
    requires |keys| == |caps|
    ensures forall k :: k in Bind(keys, caps) <==> k in keys
  {
    if keys != [] {
      var n := |keys| - 1;
      BindDomain(keys[..n], caps[..n]);
      assert keys == keys[..n] + [keys[n]];
    }
  }

  /** Key i is bound to capture i (capture group i + 1) unless a later key
      has the same name, in which case the later capture wins. */
  lemma {:induction false} BindLastWins(keys: seq<string>, caps: seq<string>, i: nat)
    requires |keys| == |caps| && i < |keys|
    requires forall j :: i < j < |keys| ==> keys[j] != keys[i]
    ensures keys[i] in Bind(keys, caps) && Bind(keys, caps)[keys[i]] == caps[i]
  {
    var n := |keys| - 1;
    if i < n {
      BindLastWins(keys[..n], caps[..n], i);
    }
  }
}
