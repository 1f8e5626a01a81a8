/** Concrete resolutions computed from the model. */
module Scenarios {
  import opened PhpArrays
  import opened ParameterResolver

  /** Defaults `{team: Team#7}`, no model, handler `(Team $team, Comment
      $comment)`: only `team` is resolved. */
  lemma TeamWithoutModel()
    ensures ForRoute(Resolver(None, [(Name("team"), Obj("Team", 7))]),
                     [SignatureParameter("team", "Team"), SignatureParameter("comment", "Comment")])
      == [(Name("team"), Obj("Team", 7))]
  {
    var d: PhpArray := [(Name("team"), Obj("Team", 7))];
    var sig: Signature := [SignatureParameter("team", "Team"), SignatureParameter("comment", "Comment")];
    assert ResolveParameter(sig[0], d) == Obj("Team", 7);
    assert ResolveParameter(sig[1], d) == Null;
    var m: PhpArray := [(Name("team"), Obj("Team", 7)), (Name("comment"), Null)];
    assert MapWithKeys(sig, d) == m;
    assert RejectNull(m) == d;
  }

  /** Existing model Post#1, no defaults, handler `(Post $post)`: the model
      is found by its class. */
  lemma ModelByType()
    ensures ForRoute(Resolver(Some(Model("Post", 1, true)), []), [SignatureParameter("post", "Post")])
      == [(Name("post"), Obj("Post", 1))]
  {
    var r := Resolver(Some(Model("Post", 1, true)), []);
    var sig: Signature := [SignatureParameter("post", "Post")];
    ModelWinsTypeTie(r, sig[0]);
    var m: PhpArray := [(Name("post"), Obj("Post", 1))];
    assert MapWithKeys(sig, ProvidedParameters(r)) == m;
    assert RejectNull(m) == m;
  }

  /** Existing model Post#1, defaults `{author: User#3}`, handler `(Post
      $post, User $author)`: `post` by class, `author` by name. */
  lemma ModelAndNamedDefault()
    ensures ForRoute(Resolver(Some(Model("Post", 1, true)), [(Name("author"), Obj("User", 3))]),
                     [SignatureParameter("post", "Post"), SignatureParameter("author", "User")])
      == [(Name("post"), Obj("Post", 1)), (Name("author"), Obj("User", 3))]
  {
    var r := Resolver(Some(Model("Post", 1, true)), [(Name("author"), Obj("User", 3))]);
    var sig: Signature := [SignatureParameter("post", "Post"), SignatureParameter("author", "User")];
    var p: PhpArray := [(Pos(0), Obj("Post", 1)), (Name("author"), Obj("User", 3))];
    var m: PhpArray := [(Name("post"), Obj("Post", 1)), (Name("author"), Obj("User", 3))];
    PostAndAuthorProvided();
    assert ProvidedParameters(r) == p;
    PostAndAuthorMapped();
    assert MapWithKeys(sig, p) == m;
    PostAndAuthorKept();
  }

  lemma PostAndAuthorKept()
    ensures RejectNull([(Name("post"), Obj("Post", 1)), (Name("author"), Obj("User", 3))])
      == [(Name("post"), Obj("Post", 1)), (Name("author"), Obj("User", 3))]
  {
    var m: PhpArray := [(Name("post"), Obj("Post", 1)), (Name("author"), Obj("User", 3))];
    RejectNullHead(m);
    RejectNullHead(m[1..]);
    assert m[1..][1..] == [];
    assert [m[0]] + m[1..] == m;
  }

  lemma PostAndAuthorProvided()
    ensures ProvidedParameters(Resolver(Some(Model("Post", 1, true)), [(Name("author"), Obj("User", 3))]))
      == [(Pos(0), Obj("Post", 1)), (Name("author"), Obj("User", 3))]
  {
    var d: PhpArray := [(Name("author"), Obj("User", 3))];
    assert Renumber(d, 1) == d;
  }

  lemma PostAndAuthorMapped()
    ensures MapWithKeys([SignatureParameter("post", "Post"), SignatureParameter("author", "User")],
                        [(Pos(0), Obj("Post", 1)), (Name("author"), Obj("User", 3))])
      == [(Name("post"), Obj("Post", 1)), (Name("author"), Obj("User", 3))]
  {
    var sig: Signature := [SignatureParameter("post", "Post"), SignatureParameter("author", "User")];
    var p: PhpArray := [(Pos(0), Obj("Post", 1)), (Name("author"), Obj("User", 3))];
    assert ResolveParameter(sig[0], p) == Obj("Post", 1) by {
      assert !KeyExists(p, Name("post"));
      assert IsInstanceOf(Values(p)[0], "Post");
    }
    assert ResolveParameter(sig[1], p) == Obj("User", 3) by {
      assert p[1].0 == Name("author");
    }
  }

  /** A model that does not exist is not used, even of the declared class. */
  lemma TransientModelIgnored()
    ensures ForRoute(Resolver(Some(Model("Post", 1, false)), []), [SignatureParameter("post", "Post")]) == []
  {
    var sig: Signature := [SignatureParameter("post", "Post")];
    assert ResolveParameter(sig[0], []) == Null;
    assert MapWithKeys(sig, []) == [(Name("post"), Null)];
  }

  /** An explicit null under `post` hides the Post object provided beside it. */
  lemma ExplicitNullHidesObject()
    ensures ForRoute(Resolver(None, [(Name("post"), Null), (Name("other"), Obj("Post", 2))]),
                     [SignatureParameter("post", "Post")]) == []
  {
    var d: PhpArray := [(Name("post"), Null), (Name("other"), Obj("Post", 2))];
    var sig: Signature := [SignatureParameter("post", "Post")];
    assert d[0].0 == Name("post");
    assert ResolveParameter(sig[0], d) == Null;
    assert MapWithKeys(sig, d) == [(Name("post"), Null)];
  }

  /** Falsy values other than null are passed on. */
  lemma FalsyValuesKept()
    ensures ForRoute(Resolver(None, [(Name("page"), Int(0)), (Name("draft"), Bool(false))]),
                     [SignatureParameter("page", "int"), SignatureParameter("draft", "bool")])
      == [(Name("page"), Int(0)), (Name("draft"), Bool(false))]
  {
    var d: PhpArray := [(Name("page"), Int(0)), (Name("draft"), Bool(false))];
    var sig: Signature := [SignatureParameter("page", "int"), SignatureParameter("draft", "bool")];
    assert d[0].0 == Name("page") && d[1].0 == Name("draft");
    assert ResolveParameter(sig[0], d) == Int(0);
    assert ResolveParameter(sig[1], d) == Bool(false);
    assert MapWithKeys(sig, d) == d;
    assert RejectNull(d) == d;
  }

  /** The empty string is passed on too. */
  lemma EmptyStringKept()
    ensures ForRoute(Resolver(None, [(Name("q"), Str(""))]), [SignatureParameter("q", "string")])
      == [(Name("q"), Str(""))]
  {
    var d: PhpArray := [(Name("q"), Str(""))];
    var sig: Signature := [SignatureParameter("q", "string")];
    assert d[0].0 == Name("q");
    assert ResolveParameter(sig[0], d) == Str("");
    assert MapWithKeys(sig, d) == d;
    assert RejectNull(d) == d;
  }

  /** `array_merge` gives the model key 0 and moves a positional default
      to key 1; string keys stay. */
  lemma MergeRenumbersPositionalDefaults()
    ensures ProvidedParameters(Resolver(Some(Model("Post", 1, true)), [(Pos(0), Obj("User", 3)), (Name("tag"), Str("x"))]))
      == [(Pos(0), Obj("Post", 1)), (Pos(1), Obj("User", 3)), (Name("tag"), Str("x"))]
  {
    var d: PhpArray := [(Pos(0), Obj("User", 3)), (Name("tag"), Str("x"))];
    assert Renumber(d, 1) == [(Pos(1), Obj("User", 3)), (Name("tag"), Str("x"))];
  }
}
