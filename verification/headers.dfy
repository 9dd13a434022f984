/** `_map_email_details`: hoisting the first occurrence of five well-known
    headers of a fetched message to top-level keys of its record. */
module Headers {
  import opened Wrappers
  import opened Json
  import Text

  /** One entry of `payload.headers`: its `name` (`None` when missing or null)
      and its `value` (`Str("")` when the key is missing, as `x.get('value', '')`
      gives). */
  datatype Header = Header(name: Option<string>, value: Value)

  /** A fetched message record. `fields` is the whole dictionary, `payload`
      included; `headers` is its decoded `payload.headers` list, `None` when
      `payload` is missing or its `headers` are missing or null. */
  datatype Email = Email(fields: map<string, Value>, headers: Option<seq<Header>>)

  /** The two shapes `_map_email_details` returns: the bare dictionary when there are no
      headers, a (status, dictionary) pair otherwise. */
  datatype Mapped =
    | Bare(record: map<string, Value>)
    | Pair(ok: bool, record: map<string, Value>)

  /** The header names promoted, in the connector's order. */
  const Recognised: seq<string> := ["subject", "delivered-to", "from", "to", "message-id"]

  /** The top-level key a promoted header lands under. */
  function KeyFor(name: string): (k: string)
    ensures |k| == |name| && '-' !in k
  {
    Text.ReplaceChar(name, '-', '_')
  }

  /** The lower-cased name of a header, if its name is truthy. */
  function NameOf(h: Header): Option<string> {
    if h.name.Some? && h.name.value != "" then Some(Text.Lower(h.name.value)) else None
  }

  /** The value of the first header whose lower-cased name is `n`. */
  function FirstValue(hs: seq<Header>, n: string): Option<Value> {
    if |hs| == 0 then None
    else if NameOf(hs[0]) == Some(n) then Some(hs[0].value)
    else FirstValue(hs[1..], n)
  }

  /** The keys promotion can ever write. */
  ghost const PromotedKeys: set<string> := set n | n in Recognised :: KeyFor(n)

  /** `promoted` holds, for every recognised name that occurs in `hs`, the value
      of its first occurrence under that name's key, and nothing else. */
  ghost predicate PromotesFirstOccurrences(hs: seq<Header>, promoted: map<string, Value>) {
    && promoted.Keys <= PromotedKeys
    && forall n :: n in Recognised ==>
         && (KeyFor(n) in promoted <==> FirstValue(hs, n).Some?)
         && (KeyFor(n) in promoted ==> promoted[KeyFor(n)] == FirstValue(hs, n).value)
  }

  /** `list.remove`: drop the first occurrence of `x`. */
  function Remove(s: seq<string>, x: string): (r: seq<string>)
    requires x in s
    ensures |r| == |s| - 1
  {
    if s[0] == x then s[1..] else [s[0]] + Remove(s[1..], x)
  }

  /** The worklist of the header loop: the names of `names` that have no
      occurrence in the headers `done` already visited, in order. */
  function Unfound(names: seq<string>, done: seq<Header>): seq<string> {
    if |names| == 0 then []
    else (if FirstValue(done, names[0]).None? then [names[0]] else []) + Unfound(names[1..], done)
  }

  /** The header loop over `payload.headers`: stop once the worklist is empty;
      skip nameless and unrecognised (or already promoted) headers; otherwise
      record the value under the name's key and strike the name off. */
  function Promote(hs: seq<Header>, remaining: seq<string>, acc: map<string, Value>): map<string, Value>
    decreases |hs|
  {
    if |remaining| == 0 || |hs| == 0 then acc
    else
      match NameOf(hs[0])
      case Some(n) =>
        if n in remaining then Promote(hs[1..], Remove(remaining, n), acc[KeyFor(n) := hs[0].value])
        else Promote(hs[1..], remaining, acc)
      case None => Promote(hs[1..], remaining, acc)
  }

  /** The header dictionary `_map_email_details` builds for one message. */
  function PromoteHeaders(hs: seq<Header>): (promoted: map<string, Value>)
    ensures PromotesFirstOccurrences(hs, promoted)
  {
    UnfoundNothingVisited(Recognised);
    PromoteInvariant([], hs, map[]);
    assert [] + hs == hs;
    Promote(hs, Recognised, map[])
  }

  // ---------------------------------------------------------------------------
  // The loop lemma
  // ---------------------------------------------------------------------------

  /** The invariant of the header loop: having visited `done` with dictionary
      `acc` and worklist `Unfound(Recognised, done)`, finishing the loop on `hs`
      yields the first-occurrence dictionary of `done + hs`. */
  lemma {:induction false} PromoteInvariant(done: seq<Header>, hs: seq<Header>, acc: map<string, Value>)
    requires PromotesFirstOccurrences(done, acc)
    ensures PromotesFirstOccurrences(done + hs, Promote(hs, Unfound(Recognised, done), acc))
    decreases |hs|
  {
    var remaining := Unfound(Recognised, done);
    if |hs| == 0 {
      assert done + hs == done;
    } else if |remaining| == 0 {
      AllFoundKeeps(done, hs, acc);
    } else {
      var h := hs[0];
      var done' := done + [h];
      assert done + hs == done' + hs[1..];
      var acc' := if NameOf(h).Some? && NameOf(h).value in remaining
                  then acc[KeyFor(NameOf(h).value) := h.value] else acc;
      PromoteUnfolds(done, hs, acc);
      StepKeepsInvariant(done, h, acc);
      PromoteInvariant(done', hs[1..], acc');
    }
  }

  /** One turn of the loop: the worklist after it is the names the visited
      headers, one more than before, have not shown. */
  lemma PromoteUnfolds(done: seq<Header>, hs: seq<Header>, acc: map<string, Value>)
    requires |hs| > 0 && |Unfound(Recognised, done)| > 0
    ensures var h := hs[0];
            var remaining := Unfound(Recognised, done);
            Promote(hs, remaining, acc) ==
              Promote(hs[1..], Unfound(Recognised, done + [h]),
                      if NameOf(h).Some? && NameOf(h).value in remaining
                      then acc[KeyFor(NameOf(h).value) := h.value] else acc)
  {
    UnfoundSnoc(Recognised, done, hs[0]);
  }

  /** Once every name has been found, later headers change no first occurrence. */
  lemma AllFoundKeeps(done: seq<Header>, hs: seq<Header>, acc: map<string, Value>)
    requires PromotesFirstOccurrences(done, acc) && |Unfound(Recognised, done)| == 0
    ensures PromotesFirstOccurrences(done + hs, acc)
  {
    forall n | n in Recognised ensures FirstValue(done + hs, n) == FirstValue(done, n) {
      UnfoundMembers(Recognised, done, n);
      FirstValueAppend(done, hs, n);
    }
  }

  /** One iteration of the loop keeps the invariant. */
  lemma StepKeepsInvariant(done: seq<Header>, h: Header, acc: map<string, Value>)
    requires PromotesFirstOccurrences(done, acc)
    ensures var remaining := Unfound(Recognised, done);
            PromotesFirstOccurrences(done + [h],
              if NameOf(h).Some? && NameOf(h).value in remaining
              then acc[KeyFor(NameOf(h).value) := h.value] else acc)
  {
    if NameOf(h).Some? && NameOf(h).value in Unfound(Recognised, done) {
      StepRecords(done, h, acc, NameOf(h).value);
    } else {
      StepSkips(done, h, acc);
    }
  }

  /** A header whose name is still on the worklist is recorded under its key. */
  lemma StepRecords(done: seq<Header>, h: Header, acc: map<string, Value>, n: string)
    requires PromotesFirstOccurrences(done, acc)
    requires NameOf(h) == Some(n) && n in Unfound(Recognised, done)
    ensures PromotesFirstOccurrences(done + [h], acc[KeyFor(n) := h.value])
  {
    UnfoundMembers(Recognised, done, n);
    forall m | m in Recognised
      ensures FirstValue(done + [h], m) == if m == n then Some(h.value) else FirstValue(done, m)
    {
      FirstValueSnoc(done, h, m);
    }
    forall m | m in Recognised && m != n ensures KeyFor(m) != KeyFor(n) {
      KeysDistinct(m, n);
    }
  }

  /** A nameless, unrecognised or already found header changes nothing. */
  lemma StepSkips(done: seq<Header>, h: Header, acc: map<string, Value>)
    requires PromotesFirstOccurrences(done, acc)
    requires !(NameOf(h).Some? && NameOf(h).value in Unfound(Recognised, done))
    ensures PromotesFirstOccurrences(done + [h], acc)
  {
    if NameOf(h).Some? {
      UnfoundMembers(Recognised, done, NameOf(h).value);
    }
    forall m | m in Recognised ensures FirstValue(done + [h], m) == FirstValue(done, m) {
      FirstValueSnoc(done, h, m);
    }
  }

  /** Distinct recognised names promote to distinct keys (their lengths differ). */
  lemma KeysDistinct(m: string, n: string)
    requires m in Recognised && n in Recognised && m != n
    ensures KeyFor(m) != KeyFor(n)
  {
  }

  /** Appending one header changes a first occurrence only where none existed. */
  lemma {:induction false} FirstValueSnoc(done: seq<Header>, h: Header, n: string)
    ensures FirstValue(done + [h], n) ==
            if FirstValue(done, n).Some? then FirstValue(done, n)
            else if NameOf(h) == Some(n) then Some(h.value) else None
  {
    if |done| > 0 {
      assert (done + [h])[1..] == done[1..] + [h];
      FirstValueSnoc(done[1..], h, n);
    }
  }

  /** A first occurrence is unaffected by whatever follows it. */
  lemma {:induction false} FirstValueAppend(done: seq<Header>, hs: seq<Header>, n: string)
    requires FirstValue(done, n).Some?
    ensures FirstValue(done + hs, n) == FirstValue(done, n)
  {
    if NameOf(done[0]) != Some(n) {
      assert (done + hs)[1..] == done[1..] + hs;
      FirstValueAppend(done[1..], hs, n);
    }
  }

  /** The worklist holds exactly the names not yet seen. */
  lemma {:induction false} UnfoundMembers(names: seq<string>, done: seq<Header>, n: string)
    ensures n in Unfound(names, done) <==> n in names && FirstValue(done, n).None?
  {
    if |names| > 0 {
      UnfoundMembers(names[1..], done, n);
      assert names == [names[0]] + names[1..];
    }
  }

  /** Before the loop has visited anything every name is still to be found. */
  lemma {:induction false} UnfoundNothingVisited(names: seq<string>)
    ensures Unfound(names, []) == names
  {
    if |names| > 0 {
      UnfoundNothingVisited(names[1..]);
      assert names == [names[0]] + names[1..];
    }
  }

  /** Visiting one more header strikes its name off the worklist exactly when it
      was still there: the connector's `headers_to_parse.remove(...)`. */
  lemma {:induction false} UnfoundSnoc(names: seq<string>, done: seq<Header>, h: Header)
    requires forall i, j :: 0 <= i < j < |names| ==> names[i] != names[j]
    ensures Unfound(names, done + [h]) ==
            if NameOf(h).Some? && NameOf(h).value in Unfound(names, done)
            then Remove(Unfound(names, done), NameOf(h).value)
            else Unfound(names, done)
  {
    if |names| > 0 {
      var x := names[0];
      var rest := names[1..];
      assert forall i, j :: 0 <= i < j < |rest| ==> rest[i] != rest[j] by {
        forall i, j | 0 <= i < j < |rest| ensures rest[i] != rest[j] {
          assert rest[i] == names[i + 1] && rest[j] == names[j + 1];
        }
      }
      assert x !in rest by {
        forall j | 0 <= j < |rest| ensures rest[j] != x {
          assert rest[j] == names[j + 1];
        }
      }
      UnfoundSnoc(rest, done, h);
      FirstValueSnoc(done, h, x);
      UnfoundMembers(rest, done, x);
      var u := Unfound(names, done);
      var t := Unfound(rest, done);
      var head := if FirstValue(done, x).None? then [x] else [];
      assert u == head + t;
      assert (head + t)[|head|..] == t;
      if NameOf(h).Some? {
        var v := NameOf(h).value;
        UnfoundMembers(rest, done, v);
        UnfoundMembers(names, done, v);
        if v in u && x != v {
          assert v in t;
          if head == [x] {
            assert Remove(u, v) == [x] + Remove(t, v);
          }
        }
      }
    }
  }

  // ---------------------------------------------------------------------------
  // Consequences
  // ---------------------------------------------------------------------------

  /** The first-occurrence dictionary of a header list is unique. */
  lemma FirstOccurrencesUnique(hs: seq<Header>, p: map<string, Value>, q: map<string, Value>)
    requires PromotesFirstOccurrences(hs, p) && PromotesFirstOccurrences(hs, q)
    ensures p == q
  {
    forall k | k in p ensures k in q && p[k] == q[k] {
      var n :| n in Recognised && k == KeyFor(n);
    }
    forall k | k in q ensures k in p {
      var n :| n in Recognised && k == KeyFor(n);
    }
  }

  /** Once all five names have been found, the rest of the list is irrelevant:
      the loop may stop. */
  lemma PromotionStopsOnceAllFound(hs: seq<Header>, tail: seq<Header>)
    requires forall n :: n in Recognised ==> FirstValue(hs, n).Some?
    ensures PromoteHeaders(hs + tail) == PromoteHeaders(hs)
  {
    forall n | n in Recognised ensures FirstValue(hs + tail, n) == FirstValue(hs, n) {
      FirstValueAppend(hs, tail, n);
    }
    FirstOccurrencesUnique(hs + tail, PromoteHeaders(hs + tail), PromoteHeaders(hs));
  }

  /** A later header repeating an already promoted name changes nothing. */
  lemma RepeatedHeaderIgnored(hs: seq<Header>, h: Header)
    requires NameOf(h).Some? && FirstValue(hs, NameOf(h).value).Some?
    ensures PromoteHeaders(hs + [h]) == PromoteHeaders(hs)
  {
    forall n | n in Recognised ensures FirstValue(hs + [h], n) == FirstValue(hs, n) {
      FirstValueSnoc(hs, h, n);
    }
    FirstOccurrencesUnique(hs + [h], PromoteHeaders(hs + [h]), PromoteHeaders(hs));
  }

  /** Header names are matched case-insensitively. */
  lemma NamesMatchIgnoringCase(hs: seq<Header>, i: nat, n: string, spelled: string)
    requires i < |hs| && n in Recognised
    requires hs[i].name == Some(spelled) && Text.Lower(spelled) == n
    requires forall j :: 0 <= j < i ==> NameOf(hs[j]) != Some(n)
    ensures KeyFor(n) in PromoteHeaders(hs) && PromoteHeaders(hs)[KeyFor(n)] == hs[i].value
  {
    FirstValueAt(hs, i, n);
  }

  lemma {:induction false} FirstValueAt(hs: seq<Header>, i: nat, n: string)
    requires i < |hs| && NameOf(hs[i]) == Some(n)
    requires forall j :: 0 <= j < i ==> NameOf(hs[j]) != Some(n)
    ensures FirstValue(hs, n) == Some(hs[i].value)
  {
    if i > 0 {
      FirstValueAt(hs[1..], i - 1, n);
    }
  }

  // ---------------------------------------------------------------------------
  // _map_email_details
  // ---------------------------------------------------------------------------

  /** `_map_email_details` as written: `payload` is always popped; without
      headers the bare dictionary comes back, otherwise a success pair whose
      dictionary is updated with the promoted headers. */
  function MapEmailDetails(e: Email): (r: Mapped)
    ensures r.Bare? <==> e.headers.None? || e.headers.value == []
    ensures r.Pair? ==> r.ok
    ensures "payload" !in r.record
    ensures r.Bare? ==> r.record.Keys == e.fields.Keys - {"payload"}
    ensures r.Pair? ==> forall n :: n in Recognised && FirstValue(e.headers.value, n).Some? ==>
                          KeyFor(n) in r.record && r.record[KeyFor(n)] == FirstValue(e.headers.value, n).value
    ensures forall k :: k in r.record <==>
                        (k in e.fields && k != "payload")
                        || (r.Pair? && e.headers.Some? && k in PromoteHeaders(e.headers.value))
    ensures forall k :: k in e.fields && k != "payload" && (r.Bare? || k !in PromoteHeaders(e.headers.value))
                        ==> r.record[k] == e.fields[k]
  {
    var rest := e.fields - {"payload"};
    if e.headers.None? || e.headers.value == [] then Bare(rest)
    else
      var promoted := PromoteHeaders(e.headers.value);
      PayloadNotPromoted();
      Pair(true, rest + promoted)
  }

  /** `_map_email_details` with both paths returning the (status, dictionary)
      pair its caller unpacks. */
  function MapEmailDetailsFixed(e: Email): (r: Mapped)
    ensures r.Pair? && r.ok
    ensures r.record == MapEmailDetails(e).record
  {
    Pair(true, MapEmailDetails(e).record)
  }

  lemma PayloadNotPromoted()
    ensures "payload" !in PromotedKeys
  {
    forall n | n in Recognised ensures KeyFor(n) != "payload" {
      if n == "subject" {
        assert KeyFor(n)[0] == 's';
      }
    }
  }

  /** The shape mismatch: a message without headers comes back bare, not as the
      pair the caller expects. */
  lemma NoHeadersComesBackBare(fields: map<string, Value>)
    ensures MapEmailDetails(Email(fields, None)).Bare?
    ensures MapEmailDetails(Email(fields, Some([]))).Bare?
    ensures MapEmailDetailsFixed(Email(fields, None)).Pair?
  {
  }
}
