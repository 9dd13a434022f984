/** The part of `delete_email` that decides which ids to report: parsing the
    comma-separated `id` parameter and sorting ids by their existence check. */
module Deletion {
  import opened Errors
  import Text

  // ---------------------------------------------------------------------------
  // Parsing the id list
  // ---------------------------------------------------------------------------

  /** `[x.strip() for x in parts]`. */
  function StripAll(parts: seq<string>): (r: seq<string>)
    ensures |r| == |parts|
    ensures forall i :: 0 <= i < |parts| ==> r[i] == Text.Strip(parts[i])
  {
    seq(|parts|, i requires 0 <= i < |parts| => Text.Strip(parts[i]))
  }

  /** `list(filter(None, parts))`: the non-empty strings, in order. */
  function NonEmpty(parts: seq<string>): (r: seq<string>)
    ensures forall i :: 0 <= i < |r| ==> r[i] != "" && r[i] in parts
    ensures forall i :: 0 <= i < |parts| && parts[i] != "" ==> parts[i] in r
    ensures |r| <= |parts|
  {
    if |parts| == 0 then []
    else (if parts[0] != "" then [parts[0]] else []) + NonEmpty(parts[1..])
  }

  /** The filter keeps the order of its input: filtering a concatenation
      filters each half. */
  lemma {:induction false} NonEmptyAppend(xs: seq<string>, ys: seq<string>)
    ensures NonEmpty(xs + ys) == NonEmpty(xs) + NonEmpty(ys)
    decreases |xs|
  {
    if |xs| > 0 {
      assert (xs + ys)[0] == xs[0];
      assert (xs + ys)[1..] == xs[1..] + ys;
      NonEmptyAppend(xs[1..], ys);
    } else {
      assert xs + ys == ys;
    }
  }

  /** One more piece adds itself at the end exactly when it is non-empty. */
  lemma NonEmptySnoc(xs: seq<string>, x: string)
    ensures NonEmpty(xs + [x]) == NonEmpty(xs) + (if x != "" then [x] else [])
  {
    NonEmptyAppend(xs, [x]);
    assert [x][1..] == [];
  }

  /** A string with nothing but commas and whitespace: no id in it. */
  predicate Blank(s: string) {
    forall i :: 0 <= i < |s| ==> s[i] == ',' || Text.IsSpace(s[i])
  }

  /** A well-formed id: non-empty, comma-free, without surrounding whitespace. */
  predicate CleanId(id: string) {
    id != "" && ',' !in id && !Text.IsSpace(id[0]) && !Text.IsSpace(id[|id| - 1])
  }

  /** The ids of the `id` parameter: split on commas, strip, drop empties. */
  function ParseIds(raw: string): (ids: seq<string>)
    ensures forall i :: 0 <= i < |ids| ==> CleanId(ids[i])
    ensures ids == [] <==> Blank(raw)
  {
    var parts := Text.Split(raw, ',');
    var ids := NonEmpty(StripAll(parts));
    StrippedPiecesClean(parts);
    Text.JoinSplit(raw, ',');
    BlankParts(parts);
    NoIdsIffAllSpace(parts);
    ids
  }

  /** The non-empty stripped pieces of a comma split are clean ids. */
  lemma StrippedPiecesClean(parts: seq<string>)
    requires forall i :: 0 <= i < |parts| ==> ',' !in parts[i]
    ensures forall i :: 0 <= i < |NonEmpty(StripAll(parts))| ==> CleanId(NonEmpty(StripAll(parts))[i])
  {
    var stripped := StripAll(parts);
    var ids := NonEmpty(stripped);
    forall i | 0 <= i < |ids| ensures CleanId(ids[i]) {
      assert ids[i] in stripped && ids[i] != "";
      var j :| 0 <= j < |stripped| && ids[i] == stripped[j];
      StrippedPieceClean(parts[j]);
    }
  }

  /** A non-empty stripped comma-free piece is a clean id. */
  lemma StrippedPieceClean(s: string)
    requires ',' !in s && Text.Strip(s) != ""
    ensures CleanId(Text.Strip(s))
  {
    StripKeepsCommaFree(s);
  }

  /** Stripping never introduces a comma. */
  lemma StripKeepsCommaFree(s: string)
    requires ',' !in s
    ensures ',' !in Text.Strip(s)
  {
    var a := Text.SkipForward(s, 0);
    var b := Text.SkipBackward(s, a, |s|);
    assert Text.Strip(s) == s[a..b];
    forall k | 0 <= k < b - a ensures s[a..b][k] != ',' {
      assert s[a..b][k] == s[a + k];
    }
  }

  /** A join of comma-free pieces is blank exactly when every piece is whitespace. */
  lemma {:induction false} BlankParts(parts: seq<string>)
    requires forall i :: 0 <= i < |parts| ==> ',' !in parts[i]
    ensures Blank(Text.Join(parts, ',')) <==> forall i :: 0 <= i < |parts| ==> Text.AllSpace(parts[i])
  {
    if |parts| == 1 {
      var p := parts[0];
      if Blank(p) {
        forall k | 0 <= k < |p| ensures Text.IsSpace(p[k]) {
          assert p[k] != ',';
        }
      }
    } else if |parts| > 1 {
      var p := parts[0];
      var rest := Text.Join(parts[1..], ',');
      var s := p + [','] + rest;
      assert Text.Join(parts, ',') == s;
      BlankParts(parts[1..]);
      if Blank(s) {
        forall k | 0 <= k < |p| ensures Text.IsSpace(p[k]) {
          assert s[k] == p[k];
          assert p[k] != ',';
        }
        forall k | 0 <= k < |rest| ensures rest[k] == ',' || Text.IsSpace(rest[k]) {
          assert s[|p| + 1 + k] == rest[k];
        }
      }
      if forall i :: 0 <= i < |parts| ==> Text.AllSpace(parts[i]) {
        assert Text.AllSpace(p) by { assert parts[0] == p; }
        assert forall i :: 0 <= i < |parts[1..]| ==> Text.AllSpace(parts[1..][i]) by {
          forall i | 0 <= i < |parts[1..]| ensures Text.AllSpace(parts[1..][i]) {
            assert parts[1..][i] == parts[i + 1];
          }
        }
        forall k | 0 <= k < |s| ensures s[k] == ',' || Text.IsSpace(s[k]) {
          if k < |p| { assert s[k] == p[k]; }
          else if k > |p| { assert s[k] == rest[k - |p| - 1]; }
        }
      } else {
        var i :| 0 <= i < |parts| && !Text.AllSpace(parts[i]);
        if i > 0 {
          assert parts[1..][i - 1] == parts[i];
        }
      }
    }
  }

  /** No id survives exactly when every piece is whitespace. */
  lemma NoIdsIffAllSpace(parts: seq<string>)
    ensures NonEmpty(StripAll(parts)) == [] <==> forall i :: 0 <= i < |parts| ==> Text.AllSpace(parts[i])
  {
    var stripped := StripAll(parts);
    NonEmptyIsEmpty(stripped);
    assert forall i :: 0 <= i < |parts| ==> (stripped[i] == "" <==> Text.AllSpace(parts[i]));
  }

  /** Filtering leaves nothing exactly when every string is empty. */
  lemma {:induction false} NonEmptyIsEmpty(xs: seq<string>)
    ensures NonEmpty(xs) == [] <==> forall i :: 0 <= i < |xs| ==> xs[i] == ""
  {
    if |xs| > 0 {
      NonEmptyIsEmpty(xs[1..]);
      if xs[0] == "" && NonEmpty(xs[1..]) == [] {
        forall i | 0 <= i < |xs| ensures xs[i] == "" {
          if i > 0 { assert xs[i] == xs[1..][i - 1]; }
        }
      }
      if !(forall i :: 0 <= i < |xs[1..]| ==> xs[1..][i] == "") {
        var i :| 0 <= i < |xs[1..]| && xs[1..][i] != "";
        assert xs[i + 1] != "";
      }
    }
  }

  /** An already stripped string strips to itself. */
  lemma StripClean(s: string)
    requires s == [] || (!Text.IsSpace(s[0]) && !Text.IsSpace(s[|s| - 1]))
    ensures Text.Strip(s) == s
  {
    if s != [] {
      assert Text.SkipForward(s, 0) == 0;
      assert Text.SkipBackward(s, 0, |s|) == |s|;
      assert s[0..|s|] == s;
    }
  }

  /** For any comma-free pieces, the ids of their comma-join are the pieces
      stripped, with the empty ones dropped, in order. Every parameter is such
      a join (`Text.JoinSplit`), so this fixes the ids of every input. */
  lemma ParseIdsOfPieces(pieces: seq<string>)
    requires |pieces| >= 1
    requires forall i :: 0 <= i < |pieces| ==> ',' !in pieces[i]
    ensures ParseIds(Text.Join(pieces, ',')) == NonEmpty(StripAll(pieces))
  {
    Text.SplitJoin(pieces, ',');
  }

  /** Padding around an id and empty pieces between commas disappear: the
      parameter " a , ,b " gives the ids "a" and "b". */
  lemma ParsePaddedIds()
    ensures ParseIds(Text.Join([" a ", " ", "b "], ',')) == ["a", "b"]
  {
    ParseIdsOfPieces([" a ", " ", "b "]);
    StripAllPieces();
    NonEmptyPieces();
  }

  lemma StripAllPieces()
    ensures StripAll([" a ", " ", "b "]) == ["a", "", "b"]
  {
    StripPieces();
  }

  lemma NonEmptyPieces()
    ensures NonEmpty(["a", "", "b"]) == ["a", "b"]
  {
    assert ["a", "", "b"][1..] == ["", "b"];
    assert ["", "b"][1..] == ["b"];
  }

  lemma StripPieces()
    ensures Text.Strip(" a ") == "a" && Text.Strip(" ") == "" && Text.Strip("b ") == "b"
  {
    assert Text.SkipForward(" a ", 0) == 1 by {
      assert Text.IsSpace(' ') && !Text.IsSpace('a');
      assert Text.SkipForward(" a ", 1) == 1;
    }
    assert Text.SkipBackward(" a ", 1, 3) == 2 by {
      assert Text.SkipBackward(" a ", 1, 2) == 2;
    }
    assert Text.SkipForward(" ", 0) == 1 by {
      assert Text.SkipForward(" ", 1) == 1;
    }
    assert Text.SkipBackward("b ", 0, 2) == 1 by {
      assert Text.SkipForward("b ", 0) == 0;
      assert Text.SkipBackward("b ", 0, 1) == 1;
    }
    assert " a "[1..2] == "a";
    assert "b "[0..1] == "b";
  }

  /** Parsing inverts joining clean ids with commas. */
  lemma ParseIdsOfJoined(ids: seq<string>)
    requires |ids| >= 1
    requires forall i :: 0 <= i < |ids| ==> CleanId(ids[i])
    ensures ParseIds(Text.Join(ids, ',')) == ids
  {
    var parts := Text.Split(Text.Join(ids, ','), ',');
    Text.SplitJoin(ids, ',');
    assert parts == ids;
    StripAllClean(ids);
    NonEmptyKeepsNonEmpty(ids);
  }

  lemma StripAllClean(ids: seq<string>)
    requires forall i :: 0 <= i < |ids| ==> CleanId(ids[i])
    ensures StripAll(ids) == ids
  {
    var stripped := StripAll(ids);
    forall i | 0 <= i < |ids| ensures stripped[i] == ids[i] {
      StripClean(ids[i]);
    }
  }

  lemma {:induction false} NonEmptyKeepsNonEmpty(parts: seq<string>)
    requires forall i :: 0 <= i < |parts| ==> parts[i] != ""
    ensures NonEmpty(parts) == parts
  {
    if |parts| > 0 {
      NonEmptyKeepsNonEmpty(parts[1..]);
      assert parts == [parts[0]] + parts[1..];
    }
  }

  // ---------------------------------------------------------------------------
  // Existence check of each id
  // ---------------------------------------------------------------------------

  /** The outcome of the per-id `messages().get` call. */
  datatype Probe =
    | Exists                   // the message was fetched
    | HttpError                // the API client raised its HTTP error
    | OtherError(e: Exception) // anything else was raised

  /** Either the two id sets after every id was checked, or the abort at the
      position of the id whose check raised something other than an HTTP error. */
  datatype Classification =
    | Classified(good: set<string>, bad: set<string>)
    | CheckAborted(at: nat, error: Exception)

  /** The text of an aborted check: "Error checking email. ID: <id> Reason: <text>." */
  function CheckMessage(id: string, e: Exception): string {
    "Error checking email. ID: " + id + " Reason: " + ErrorMessage(e) + "."
  }

  /** The ids from position `i` on whose check found the message. */
  function FoundFrom(ids: seq<string>, probes: seq<Probe>, i: nat): set<string>
    requires |probes| == |ids|
  {
    set j | i <= j < |ids| && probes[j].Exists? :: ids[j]
  }

  /** The ids from position `i` on whose check raised an HTTP error. */
  function GoneFrom(ids: seq<string>, probes: seq<Probe>, i: nat): set<string>
    requires |probes| == |ids|
  {
    set j | i <= j < |ids| && probes[j].HttpError? :: ids[j]
  }

  /** The `delete_email` check loop from position `i`, with the sets built so far. */
  function Classify(ids: seq<string>, probes: seq<Probe>, i: nat, good: set<string>, bad: set<string>): Classification
    requires |probes| == |ids| && i <= |ids|
    decreases |ids| - i
  {
    if i == |ids| then Classified(good, bad)
    else
      match probes[i]
      case Exists => Classify(ids, probes, i + 1, good + {ids[i]}, bad)
      case HttpError => Classify(ids, probes, i + 1, good, bad + {ids[i]})
      case OtherError(e) => CheckAborted(i, e)
  }

  /** When no check from position `i` on aborts, the loop adds exactly the found
      ids to the good set and the HTTP-error ids to the bad set. */
  lemma {:induction false} ClassifyCompletes(ids: seq<string>, probes: seq<Probe>, i: nat, good: set<string>, bad: set<string>)
    requires |probes| == |ids| && i <= |ids|
    requires forall j :: i <= j < |ids| ==> !probes[j].OtherError?
    ensures Classify(ids, probes, i, good, bad)
              == Classified(good + FoundFrom(ids, probes, i), bad + GoneFrom(ids, probes, i))
    decreases |ids| - i
  {
    if i < |ids| {
      var good' := if probes[i].Exists? then good + {ids[i]} else good;
      var bad' := if probes[i].HttpError? then bad + {ids[i]} else bad;
      ClassifyStep(ids, probes, i, good, bad);
      ClassifyCompletes(ids, probes, i + 1, good', bad');
      FromStep(ids, probes, i);
    }
  }

  /** One turn of the loop over an id whose check did not abort. */
  lemma ClassifyStep(ids: seq<string>, probes: seq<Probe>, i: nat, good: set<string>, bad: set<string>)
    requires |probes| == |ids| && i < |ids| && !probes[i].OtherError?
    ensures Classify(ids, probes, i, good, bad)
            == Classify(ids, probes, i + 1, if probes[i].Exists? then good + {ids[i]} else good,
                                            if probes[i].HttpError? then bad + {ids[i]} else bad)
  {
  }

  lemma FromStep(ids: seq<string>, probes: seq<Probe>, i: nat)
    requires |probes| == |ids| && i < |ids|
    ensures FoundFrom(ids, probes, i) == (if probes[i].Exists? then {ids[i]} else {}) + FoundFrom(ids, probes, i + 1)
    ensures GoneFrom(ids, probes, i) == (if probes[i].HttpError? then {ids[i]} else {}) + GoneFrom(ids, probes, i + 1)
  {
  }

  /** The first check from position `i` on that raises a non-HTTP error aborts
      the loop at its position, with its exception; the handler words the message. */
  lemma {:induction false} ClassifyAborts(ids: seq<string>, probes: seq<Probe>, i: nat, good: set<string>, bad: set<string>, k: nat)
    requires |probes| == |ids| && i <= k < |ids|
    requires probes[k].OtherError? && forall j :: i <= j < k ==> !probes[j].OtherError?
    ensures Classify(ids, probes, i, good, bad) == CheckAborted(k, probes[k].e)
    decreases |ids| - i
  {
    if i < k {
      var good' := if probes[i].Exists? then good + {ids[i]} else good;
      var bad' := if probes[i].HttpError? then bad + {ids[i]} else bad;
      ClassifyStep(ids, probes, i, good, bad);
      ClassifyAborts(ids, probes, i + 1, good', bad', k);
    } else {
      ClassifyAbortsHere(ids, probes, k, good, bad);
    }
  }

  /** The loop stops at an id whose check raised a non-HTTP error. */
  lemma ClassifyAbortsHere(ids: seq<string>, probes: seq<Probe>, k: nat, good: set<string>, bad: set<string>)
    requires |probes| == |ids| && k < |ids| && probes[k].OtherError?
    ensures Classify(ids, probes, k, good, bad) == CheckAborted(k, probes[k].e)
  {
  }

  /** Classifying all ids: when no check aborts, the good set holds exactly the
      ids found and the bad set exactly the ids that raised an HTTP error; the
      first check raising anything else aborts at its position, with its exception. */
  function ClassifyIds(ids: seq<string>, probes: seq<Probe>): (r: Classification)
    requires |probes| == |ids|
    ensures r.Classified? <==> forall j :: 0 <= j < |ids| ==> !probes[j].OtherError?
    ensures r.Classified? ==> forall id :: id in r.good <==> exists j :: 0 <= j < |ids| && ids[j] == id && probes[j].Exists?
    ensures r.Classified? ==> forall id :: id in r.bad <==> exists j :: 0 <= j < |ids| && ids[j] == id && probes[j].HttpError?
    ensures r.CheckAborted? ==> r.at < |ids| && probes[r.at].OtherError?
                                && (forall j :: 0 <= j < r.at ==> !probes[j].OtherError?)
                                && r.error == probes[r.at].e
  {
    FirstOtherError(probes);
    if forall j :: 0 <= j < |ids| ==> !probes[j].OtherError? then
      ClassifyCompletes(ids, probes, 0, {}, {});
      Classify(ids, probes, 0, {}, {})
    else
      var k :| 0 <= k < |probes| && probes[k].OtherError? && forall j :: 0 <= j < k ==> !probes[j].OtherError?;
      ClassifyAborts(ids, probes, 0, {}, {}, k);
      Classify(ids, probes, 0, {}, {})
  }

  /** The two id sets are sets, not a partition: an id listed twice whose checks
      disagree ends up in both. */
  lemma IdInBothSets()
    ensures ClassifyIds(["a", "a"], [Exists, HttpError]) == Classified({"a"}, {"a"})
  {
    assert Classify(["a", "a"], [Exists, HttpError], 0, {}, {}) == Classified({"a"}, {"a"});
  }

  /** If some check raises a non-HTTP error, there is a first one. */
  lemma FirstOtherError(probes: seq<Probe>)
    ensures (exists j :: 0 <= j < |probes| && probes[j].OtherError?) ==>
            exists k :: 0 <= k < |probes| && probes[k].OtherError? && forall j :: 0 <= j < k ==> !probes[j].OtherError?
  {
    if exists j :: 0 <= j < |probes| && probes[j].OtherError? {
      var j :| 0 <= j < |probes| && probes[j].OtherError?;
      FirstOtherErrorBelow(probes, j);
    }
  }

  lemma {:induction false} FirstOtherErrorBelow(probes: seq<Probe>, k: nat)
    requires k < |probes| && probes[k].OtherError?
    ensures exists f :: 0 <= f <= k && probes[f].OtherError? && forall j :: 0 <= j < f ==> !probes[j].OtherError?
    decreases k
  {
    if exists j :: 0 <= j < k && probes[j].OtherError? {
      var j :| 0 <= j < k && probes[j].OtherError?;
      FirstOtherErrorBelow(probes, j);
    }
  }
}
