/** The Gmail search string `run_query` sends. */
module Query {

  /** The filter parameters in the order their clauses are appended, each with
      the text that precedes its value. */
  const Filters: seq<(string, string)> := [
    ("label", " label:"),
    ("subject", " subject:"),
    ("sender", " from:"),
    ("internet_message_id", " rfc822msgid:"),
    ("body", " ")
  ]

  /** Reference rendering: one clause per filter present in `params`, in table
      order. Presence is key membership, so an empty value still adds its clause. */
  function Clauses(params: map<string, string>, filters: seq<(string, string)>): string {
    if |filters| == 0 then ""
    else Clause(params, filters[0].0, filters[0].1) + Clauses(params, filters[1..])
  }

  /** The clause one filter contributes: empty when its key is absent. */
  function Clause(params: map<string, string>, key: string, prefix: string): string {
    if key in params then prefix + params[key] else ""
  }

  /** The search string of `run_query`, clause by clause as the handler builds it;
      a `query` parameter replaces the whole string. */
  function BuildQuery(params: map<string, string>): (q: string)
    ensures "query" in params ==> q == params["query"]
    ensures "query" !in params ==> q == Clauses(params, Filters)
  {
    var q1 := "" + Clause(params, "label", " label:");
    var q2 := q1 + Clause(params, "subject", " subject:");
    var q3 := q2 + Clause(params, "sender", " from:");
    var q4 := q3 + Clause(params, "internet_message_id", " rfc822msgid:");
    var q5 := q4 + Clause(params, "body", " ");
    ClausesOfFilters(params);
    Reassociate(Clause(params, "label", " label:"), Clause(params, "subject", " subject:"),
                Clause(params, "sender", " from:"), Clause(params, "internet_message_id", " rfc822msgid:"),
                Clause(params, "body", " "));
    if "query" in params then params["query"] else q5
  }

  /** The clause table renders the same clauses, in the same order, as the
      handler's five `if` statements. */
  lemma ClausesOfFilters(params: map<string, string>)
    ensures Clauses(params, Filters) ==
      Clause(params, "label", " label:")
      + (Clause(params, "subject", " subject:")
      + (Clause(params, "sender", " from:")
      + (Clause(params, "internet_message_id", " rfc822msgid:")
      + Clause(params, "body", " "))))
  {
    var f1 := Filters[1..];
    var f2 := f1[1..];
    var f3 := f2[1..];
    var f4 := f3[1..];
    assert Filters[0] == ("label", " label:");
    assert f1[0] == ("subject", " subject:");
    assert f2[0] == ("sender", " from:");
    assert f3[0] == ("internet_message_id", " rfc822msgid:");
    assert f4[0] == ("body", " ") && |f4| == 1;
    assert Clauses(params, f4[1..]) == "";
    assert Clauses(params, f4) == Clause(params, "body", " ") + "";
    assert Clauses(params, f3) == Clause(params, "internet_message_id", " rfc822msgid:") + Clauses(params, f4);
    assert Clauses(params, f2) == Clause(params, "sender", " from:") + Clauses(params, f3);
    assert Clauses(params, f1) == Clause(params, "subject", " subject:") + Clauses(params, f2);
    assert Clauses(params, Filters) == Clause(params, "label", " label:") + Clauses(params, f1);
  }

  lemma Reassociate(c1: string, c2: string, c3: string, c4: string, c5: string)
    ensures "" + c1 + c2 + c3 + c4 + c5 == c1 + (c2 + (c3 + (c4 + c5)))
  {
    assert "" + c1 == c1;
  }

  /** The parameter names the search string reads. */
  predicate Consulted(key: string) {
    key == "query" || exists i :: 0 <= i < |Filters| && Filters[i].0 == key
  }

  /** A raw `query` discards every filter: two parameter sets with the same
      `query` give the same search string, whatever else they hold. */
  lemma QueryOverridesFilters(p: map<string, string>, p': map<string, string>)
    requires "query" in p && "query" in p' && p["query"] == p'["query"]
    ensures BuildQuery(p) == BuildQuery(p')
  {
  }

  /** Parameters the search string does not consult leave it unchanged. */
  lemma {:induction false} OtherParametersIgnored(p: map<string, string>, key: string, v: string)
    requires !Consulted(key)
    ensures BuildQuery(p[key := v]) == BuildQuery(p)
  {
    assert key != "query";
    forall i | 0 <= i < |Filters| ensures Filters[i].0 != key {
    }
    ClausesIgnore(p, key, v, Filters);
  }

  lemma {:induction false} ClausesIgnore(p: map<string, string>, key: string, v: string, filters: seq<(string, string)>)
    requires forall i :: 0 <= i < |filters| ==> filters[i].0 != key
    ensures Clauses(p[key := v], filters) == Clauses(p, filters)
  {
    if |filters| > 0 {
      ClausesIgnore(p, key, v, filters[1..]);
    }
  }

  /** Without filters and without `query` the search string is empty. */
  lemma NoCriteriaGivesEmptyQuery(p: map<string, string>)
    requires forall k :: k in p ==> !Consulted(k)
    ensures BuildQuery(p) == ""
  {
    assert "query" !in p;
    forall i | 0 <= i < |Filters| ensures Filters[i].0 !in p {
      if Filters[i].0 in p {
        assert Consulted(Filters[i].0);
      }
    }
    ClausesAbsent(p, Filters);
  }

  lemma {:induction false} ClausesAbsent(p: map<string, string>, filters: seq<(string, string)>)
    requires forall i :: 0 <= i < |filters| ==> filters[i].0 !in p
    ensures Clauses(p, filters) == ""
  {
    if |filters| > 0 {
      ClausesAbsent(p, filters[1..]);
    }
  }
}
