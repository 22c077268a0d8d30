/**
 * The gateway's route table, mounted under `/api`. A path is given as its
 * segments. As the router does by default, literal segments match without
 * regard to ASCII case, and a parameter matches any non-empty segment.
 */
module LibraryRoutes {
  import opened Wrappers
  import opened LibraryController

  datatype Verb = GET | POST | PUT | DELETE

  datatype Segment = Lit(text: string) | Param(name: string)

  datatype Route = Route(verb: Verb, pattern: seq<Segment>, handler: Handler)

  /** The registrations, in order. */
  const Routes: seq<Route> := [
    Route(POST, [Lit("books")], createBook),
    Route(GET, [Lit("books")], listBooks),
    Route(GET, [Lit("books"), Param("id")], getBook),
    Route(PUT, [Lit("books"), Param("id")], updateBook),
    Route(DELETE, [Lit("books"), Param("id")], deleteBook),
    Route(POST, [Lit("members")], createMember),
    Route(GET, [Lit("members")], listMembers),
    Route(GET, [Lit("members"), Param("id")], getMember),
    Route(PUT, [Lit("members"), Param("id")], updateMember),
    Route(POST, [Lit("borrow")], borrowBook),
    Route(GET, [Lit("borrowings")], listBorrowings),
    Route(POST, [Lit("borrowings"), Param("id"), Lit("return")], returnBorrowing)
  ]

  /** The mount point of the table. */
  const Mount := "api"

  function LowerAscii(c: char): char
  {
    if 'A' <= c <= 'Z' then (c as int + 32) as char else c
  }

  /** `seg` spells the lower-case literal `lit`, ignoring ASCII case. */
  predicate SpellsIgnoringCase(seg: string, lit: string)
  {
    |seg| == |lit| && forall i :: 0 <= i < |seg| ==> LowerAscii(seg[i]) == lit[i]
  }

  predicate SegmentMatches(p: Segment, seg: string)
  {
    match p
    case Lit(text) => SpellsIgnoringCase(seg, text)
    case Param(_) => seg != ""
  }

  predicate Matches(pattern: seq<Segment>, path: seq<string>)
  {
    |pattern| == |path| && forall i :: 0 <= i < |path| ==> SegmentMatches(pattern[i], path[i])
  }

  /** The route parameters a matching path binds. */
  function Bind(pattern: seq<Segment>, path: seq<string>): (ps: map<string, string>)
    requires |pattern| == |path|
    ensures forall i :: 0 <= i < |pattern| && pattern[i].Param? ==> pattern[i].name in ps
  {
    if pattern == [] then map[]
    else
      var rest := Bind(pattern[1..], path[1..]);
      assert forall i :: 1 <= i < |pattern| && pattern[i].Param? ==> pattern[1..][i - 1] == pattern[i];
      match pattern[0]
      case Lit(_) => rest
      case Param(name) => rest[name := path[0]]
  }

  /** The first registration from index `from` on that takes the request. */
  function FirstMatch(verb: Verb, path: seq<string>, from: nat): (r: Option<nat>)
    requires from <= |Routes|
    ensures r.Some? ==> from <= r.value < |Routes| &&
                        Routes[r.value].verb == verb && Matches(Routes[r.value].pattern, path)
    decreases |Routes| - from
  {
    if from == |Routes| then None
    else if Routes[from].verb == verb && Matches(Routes[from].pattern, path) then Some(from)
    else FirstMatch(verb, path, from + 1)
  }

  /** The handler and parameters for a request below the mount point, if any. */
  function Resolve(verb: Verb, path: seq<string>): Option<(Handler, map<string, string>)>
  {
    match FirstMatch(verb, path, 0)
    case None => None
    case Some(i) => Some((Routes[i].handler, Bind(Routes[i].pattern, path)))
  }

  /** The search finds nothing exactly when no registration from `from` on takes the request. */
  lemma {:induction false} FirstMatchNone(verb: Verb, path: seq<string>, from: nat)
    requires from <= |Routes|
    ensures FirstMatch(verb, path, from).None? <==>
      forall i :: from <= i < |Routes| ==> !(Routes[i].verb == verb && Matches(Routes[i].pattern, path))
    decreases |Routes| - from
  {
    if from < |Routes| {
      FirstMatchNone(verb, path, from + 1);
    }
  }

  /** A request resolves exactly when some registration takes it. */
  lemma ResolveIffMatch(verb: Verb, path: seq<string>)
    ensures Resolve(verb, path).Some? <==>
      exists i :: 0 <= i < |Routes| && Routes[i].verb == verb && Matches(Routes[i].pattern, path)
  {
    FirstMatchNone(verb, path, 0);
  }

  /** The handler for a full request path: the table only sees paths under `/api`. */
  function Dispatch(verb: Verb, path: seq<string>): (r: Option<(Handler, map<string, string>)>)
    ensures r.Some? ==> |path| >= 1 && SpellsIgnoringCase(path[0], Mount)
    ensures r.Some? ==> r == Resolve(verb, path[1..])
  {
    if |path| >= 1 && SpellsIgnoringCase(path[0], Mount) then Resolve(verb, path[1..]) else None
  }

  // --------------------------------------------------------------- properties

  /**
   * Two registrations for one verb never take the same path: where their
   * patterns have the same length, their first literals differ in length.
   */
  lemma {:induction false} RoutesDisjoint(verb: Verb, path: seq<string>, i: nat, j: nat)
    requires i < |Routes| && j < |Routes|
    requires Routes[i].verb == verb && Routes[j].verb == verb
    requires Matches(Routes[i].pattern, path) && Matches(Routes[j].pattern, path)
    ensures i == j
  {
    assert SegmentMatches(Routes[i].pattern[0], path[0]) && SegmentMatches(Routes[j].pattern[0], path[0]);
  }

  /**
   * A path a registration takes reaches that registration's handler, with
   * the parameters its pattern binds: no earlier registration shadows it.
   */
  lemma {:induction false} MatchingRouteResolves(i: nat, path: seq<string>)
    requires i < |Routes| && Matches(Routes[i].pattern, path)
    ensures Resolve(Routes[i].verb, path) == Some((Routes[i].handler, Bind(Routes[i].pattern, path)))
  {
    var first := FirstMatch(Routes[i].verb, path, 0);
    FirstMatchNone(Routes[i].verb, path, 0);
    RoutesDisjoint(Routes[i].verb, path, first.value, i);
  }

  /** A one-literal pattern binds nothing. */
  lemma BindLiteral(lit: string, seg: string)
    ensures Bind([Lit(lit)], [seg]) == map[]
  {
    assert [Lit(lit)][1..] == [];
  }

  /** A literal followed by a parameter binds that parameter to the second segment. */
  lemma BindLiteralParam(lit: string, name: string, seg: string, id: string)
    ensures Bind([Lit(lit), Param(name)], [seg, id]) == map[name := id]
  {
    var p := [Lit(lit), Param(name)];
    assert p[1..] == [Param(name)] && [seg, id][1..] == [id];
    assert Bind([Param(name)], [id]) == map[name := id] by {
      assert [Param(name)][1..] == [];
    }
  }

  /** `borrowings/:id/return` binds `id` to the middle segment. */
  lemma BindReturnPattern(seg: string, id: string, last: string)
    ensures Bind(Routes[11].pattern, [seg, id, last]) == map["id" := id]
  {
    var p := Routes[11].pattern;
    assert p[1..] == [Param("id"), Lit("return")] && [seg, id, last][1..] == [id, last];
    assert p[1..][1..] == [Lit("return")] && [id, last][1..] == [last];
    BindLiteral("return", last);
  }

  /** The book registrations, at their concrete paths. */
  lemma BookRoutesResolve(id: string)
    requires id != ""
    ensures Resolve(POST, ["books"]) == Some((createBook, map[]))
    ensures Resolve(GET, ["books"]) == Some((listBooks, map[]))
    ensures Resolve(GET, ["books", id]) == Some((getBook, map["id" := id]))
    ensures Resolve(PUT, ["books", id]) == Some((updateBook, map["id" := id]))
    ensures Resolve(DELETE, ["books", id]) == Some((deleteBook, map["id" := id]))
  {
    assert Resolve(POST, ["books"]) == Some((createBook, map[])) by {
      BindLiteral("books", "books");
      MatchingRouteResolves(0, ["books"]);
    }
    assert Resolve(GET, ["books"]) == Some((listBooks, map[])) by {
      BindLiteral("books", "books");
      MatchingRouteResolves(1, ["books"]);
    }
    assert Resolve(GET, ["books", id]) == Some((getBook, map["id" := id])) by {
      BindLiteralParam("books", "id", "books", id);
      MatchingRouteResolves(2, ["books", id]);
    }
    assert Resolve(PUT, ["books", id]) == Some((updateBook, map["id" := id])) by {
      BindLiteralParam("books", "id", "books", id);
      MatchingRouteResolves(3, ["books", id]);
    }
    assert Resolve(DELETE, ["books", id]) == Some((deleteBook, map["id" := id])) by {
      BindLiteralParam("books", "id", "books", id);
      MatchingRouteResolves(4, ["books", id]);
    }
  }

  /** The member registrations, at their concrete paths. */
  lemma MemberRoutesResolve(id: string)
    requires id != ""
    ensures Resolve(POST, ["members"]) == Some((createMember, map[]))
    ensures Resolve(GET, ["members"]) == Some((listMembers, map[]))
    ensures Resolve(GET, ["members", id]) == Some((getMember, map["id" := id]))
    ensures Resolve(PUT, ["members", id]) == Some((updateMember, map["id" := id]))
  {
    assert Resolve(POST, ["members"]) == Some((createMember, map[])) by {
      BindLiteral("members", "members");
      MatchingRouteResolves(5, ["members"]);
    }
    assert Resolve(GET, ["members"]) == Some((listMembers, map[])) by {
      BindLiteral("members", "members");
      MatchingRouteResolves(6, ["members"]);
    }
    assert Resolve(GET, ["members", id]) == Some((getMember, map["id" := id])) by {
      BindLiteralParam("members", "id", "members", id);
      MatchingRouteResolves(7, ["members", id]);
    }
    assert Resolve(PUT, ["members", id]) == Some((updateMember, map["id" := id])) by {
      BindLiteralParam("members", "id", "members", id);
      MatchingRouteResolves(8, ["members", id]);
    }
  }

  /** The borrowing registrations, at their concrete paths. */
  lemma BorrowingRoutesResolve()
    ensures Resolve(POST, ["borrow"]) == Some((borrowBook, map[]))
    ensures Resolve(GET, ["borrowings"]) == Some((listBorrowings, map[]))
  {
    assert Resolve(POST, ["borrow"]) == Some((borrowBook, map[])) by {
      BindLiteral("borrow", "borrow");
      MatchingRouteResolves(9, ["borrow"]);
    }
    BindLiteral("borrowings", "borrowings");
    MatchingRouteResolves(10, ["borrowings"]);
  }

  /** A return request reaches `returnBorrowing` with the record id bound. */
  lemma ReturnRouteResolves(id: string)
    requires id != ""
    ensures Resolve(POST, ["borrowings", id, "return"]) == Some((returnBorrowing, map["id" := id]))
  {
    BindReturnPattern("borrowings", id, "return");
    MatchingRouteResolves(11, ["borrowings", id, "return"]);
  }

  /**
   * `deleteMember` is exported but never registered: no request reaches it,
   * and DELETE /members/:id finds no handler.
   */
  lemma DeleteMemberUnreachable(verb: Verb, path: seq<string>, id: string)
    ensures Dispatch(verb, path).Some? ==> Dispatch(verb, path).value.0 != deleteMember
    ensures Resolve(DELETE, ["members", id]) == None
  {
    assert forall i :: 0 <= i < |Routes| ==> Routes[i].handler != deleteMember;
    assert forall i :: 0 <= i < |Routes| && Routes[i].verb == DELETE ==> i == 4;
    assert !SpellsIgnoringCase("members", "books");
  }
}
