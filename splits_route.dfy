/** The `POST /api/splits` handler of app/api/splits/route.ts: validate the
    body, compute the per-person share, insert one split row, then insert one
    participant row per non-blank trimmed participant name. The two tables are
    the sequences of a `Ledger` object. */
module SplitsRoute {
  import opened Records
  import opened Js

  /** The fields the handler reads from the JSON body. `None` is a field that
      is absent or `null`; `participantNames` may be any JSON value. */
  datatype Request = Request(
    description: Option<string>,
    totalAmount: Option<int>,
    numberOfPeople: Option<int>,
    creatorName: Option<string>,
    creatorUpiId: Option<string>,
    participantNames: Value)

  /** What the handler answers: 201 with the new id, 400 for missing fields,
      500 when an exception reached the `catch`. */
  datatype Response = Created(id: Id) | MissingFields | Failed

  /** The HTTP status of a response. */
  function Status(r: Response): (code: int)
    ensures code == 201 <==> r.Created?
    ensures code == 400 <==> r.MissingFields?
    ensures code == 500 <==> r.Failed?
  {
    match r
    case Created(_) => 201
    case MissingFields => 400
    case Failed => 500
  }

  /** The `error` text of a response; a created split has none. */
  function ErrorText(r: Response): (text: Option<string>)
    ensures text.None? <==> r.Created?
  {
    match r
    case Created(_) => None
    case MissingFields => Some("Missing required fields")
    case Failed => Some("Failed to create split")
  }

  /** `!field` is false for a text field: present, not null, and truthy
      (not `""`). */
  predicate TextGiven(f: Option<string>)
  {
    f.Some? && Truthy(Str(f.value))
  }

  /** `!field` is false for a number field: present, not null, and truthy
      (not `0`). */
  predicate NumberGiven(f: Option<int>)
  {
    f.Some? && Truthy(Number(f.value))
  }

  /** The validation guard: every required field is truthy. */
  predicate HasRequiredFields(req: Request)
  {
    TextGiven(req.description) && NumberGiven(req.totalAmount) &&
    NumberGiven(req.numberOfPeople) && TextGiven(req.creatorName) &&
    TextGiven(req.creatorUpiId)
  }

  /** The guard in terms of the body: every required field is present, the
      texts are not empty and the amounts are not zero. */
  lemma GuardAccepts(req: Request)
    ensures HasRequiredFields(req) <==>
              req.description.Some? && req.description.value != "" &&
              req.totalAmount.Some? && req.totalAmount.value != 0 &&
              req.numberOfPeople.Some? && req.numberOfPeople.value != 0 &&
              req.creatorName.Some? && req.creatorName.value != "" &&
              req.creatorUpiId.Some? && req.creatorUpiId.value != ""
  {
  }

  /** A request passing the guard has a number of people that is not zero:
      the division that follows never divides by zero. */
  lemma GuardExcludesZeroDivisor(req: Request)
    requires HasRequiredFields(req)
    ensures req.numberOfPeople.Some? && req.numberOfPeople.value != 0
  {
  }

  /** `Math.floor(a / b)` on integers, for either sign of `b`. Dafny's `/` is
      Euclidean, which agrees with the floor only for a positive divisor. */
  function FloorDiv(a: int, b: int): (q: int)
    requires b != 0
    ensures b > 0 ==> q * b <= a < q * b + b
    ensures b < 0 ==> q * b >= a > q * b + b
  {
    if b > 0 then a / b else (-a) / (-b)
  }

  lemma MulMonotone(x: int, y: int, c: int)
    requires x <= y && c >= 0
    ensures x * c <= y * c
  {
  }

  /** The floor is the only integer with those bounds. */
  lemma FloorDivUnique(a: int, b: int, q: int)
    requires b > 0 && q * b <= a < q * b + b
    ensures q == FloorDiv(a, b)
  {
    var f := FloorDiv(a, b);
    if q < f {
      MulMonotone(q + 1, f, b);
    } else if q > f {
      MulMonotone(f + 1, q, b);
    }
  }

  /** For positive amounts the per-person share is `total / people` rounded
      down: it lies between 0 and the total, the shares of all people never
      exceed the total, and one more paisa each would. */
  lemma PerPersonBounds(total: int, people: int)
    requires total > 0 && people > 0
    ensures 0 <= FloorDiv(total, people) <= total
    ensures FloorDiv(total, people) * people <= total < (FloorDiv(total, people) + 1) * people
  {
    var q := FloorDiv(total, people);
    if q < 0 {
      MulMonotone(q + 1, 0, people);
    }
    MulMonotone(1, people, q);
  }

  /** 2400 paise among 3 people is 800 paise each. */
  lemma PerPersonExample()
    ensures FloorDiv(2400, 3) == 800
  {
    FloorDivUnique(2400, 3, 800);
  }

  /** The guard tests truthiness only, so negative amounts pass it: -100
      paise among -3 people is accepted with a share of 33. */
  lemma NegativeAmountsAccepted()
    ensures HasRequiredFields(Request(Some("d"), Some(-100), Some(-3), Some("c"), Some("u"), Undefined))
    ensures FloorDiv(-100, -3) == 33
  {
  }

  /** The split row the handler inserts for a request that passed the guard. */
  function NewSplit(req: Request, id: Id, now: Timestamp): (s: Split)
    requires HasRequiredFields(req)
    ensures s.id == id && s.createdAt == now
    ensures s.description == req.description.value && s.creatorName == req.creatorName.value
    ensures s.creatorUpiId == req.creatorUpiId.value
    ensures s.totalAmount == req.totalAmount.value && s.numberOfPeople == req.numberOfPeople.value
    ensures s.perPersonAmount == FloorDiv(s.totalAmount, s.numberOfPeople)
    ensures s.totalAmount > 0 && s.numberOfPeople > 0 ==>
              0 <= s.perPersonAmount <= s.totalAmount &&
              s.perPersonAmount * s.numberOfPeople <= s.totalAmount < (s.perPersonAmount + 1) * s.numberOfPeople
  {
    var total, people := req.totalAmount.value, req.numberOfPeople.value;
    assert total > 0 && people > 0 ==>
             0 <= FloorDiv(total, people) <= total &&
             FloorDiv(total, people) * people <= total < (FloorDiv(total, people) + 1) * people by {
      if total > 0 && people > 0 { PerPersonBounds(total, people); }
    }
    Split(id, req.description.value, total, people, FloorDiv(total, people),
          req.creatorName.value, req.creatorUpiId.value, now)
  }

  /** The entries the participant loop walks: the array's items when
      `participantNames` is an array (an array is always truthy), else none. */
  function Entries(v: Value): (items: seq<Value>)
    ensures !v.Array? ==> items == []
    ensures v.Array? ==> items == v.items
  {
    if v.Array? then v.items else []
  }

  /** How many leading entries are strings. The loop calls `name.trim()` on
      each entry, so the first entry that is not a string throws. */
  function TextPrefixLength(items: seq<Value>): (n: nat)
    ensures n <= |items|
    ensures forall j :: 0 <= j < n ==> items[j].Str?
    ensures n < |items| ==> !items[n].Str?
  {
    if items == [] || !items[0].Str? then 0
    else
      var n := 1 + TextPrefixLength(items[1..]);
      assert forall j :: 1 <= j < n ==> items[j] == items[1..][j - 1];
      n
  }

  /** The text of string entries, in order. */
  function Texts(items: seq<Value>): (names: seq<string>)
    requires forall j :: 0 <= j < |items| ==> items[j].Str?
    ensures |names| == |items|
  {
    if items == [] then []
    else
      var n := |items| - 1;
      Texts(items[..n]) + [items[n].s]
  }

  /** Entry `j` has text `Texts(items)[j]`. */
  lemma {:induction false} TextsAt(items: seq<Value>)
    requires forall j :: 0 <= j < |items| ==> items[j].Str?
    ensures forall j :: 0 <= j < |items| ==> items[j] == Str(Texts(items)[j])
  {
    if items != [] {
      TextsAt(items[..|items| - 1]);
    }
  }

  predicate Blank(name: string)
  {
    Trim(name) == ""
  }

  /** The names that get a participant row: each name trimmed, the blank ones
      dropped, in the order given. Defined from the end, the way the loop
      grows it. */
  function Kept(names: seq<string>): seq<string>
  {
    if names == [] then []
    else
      var last := names[|names| - 1];
      Kept(names[..|names| - 1]) + (if Blank(last) then [] else [Trim(last)])
  }

  /** An independent count of the non-blank names, from the front. */
  function CountNonBlank(names: seq<string>): nat
  {
    if names == [] then 0
    else (if Blank(names[0]) then 0 else 1) + CountNonBlank(names[1..])
  }

  /** Keeping names commutes with concatenation: the names of `a` come out
      first, then those of `b`. */
  lemma {:induction false} KeptConcat(a: seq<string>, b: seq<string>)
    ensures Kept(a + b) == Kept(a) + Kept(b)
  {
    if b == [] {
      assert a + b == a;
    } else {
      var b' := b[..|b| - 1];
      assert (a + b)[..|a + b| - 1] == a + b';
      assert (a + b)[|a + b| - 1] == b[|b| - 1];
      KeptConcat(a, b');
    }
  }

  /** One name alone: kept trimmed unless blank. */
  lemma KeptSingle(x: string)
    ensures Kept([x]) == if Blank(x) then [] else [Trim(x)]
  {
    assert [x][..0] == [];
  }

  /** A blank name contributes nothing wherever it stands. */
  lemma BlankNameAddsNothing(a: seq<string>, x: string, b: seq<string>)
    requires Blank(x)
    ensures Kept(a + [x] + b) == Kept(a + b)
  {
    KeptConcat(a + [x], b);
    KeptConcat(a, [x]);
    KeptConcat(a, b);
    KeptSingle(x);
  }

  /** A non-blank name is kept, trimmed, between the names before it and the
      names after it. */
  lemma NonBlankNameKeptInPlace(a: seq<string>, x: string, b: seq<string>)
    requires !Blank(x)
    ensures Kept(a + [x] + b) == Kept(a) + [Trim(x)] + Kept(b)
  {
    KeptConcat(a + [x], b);
    KeptConcat(a, [x]);
    KeptSingle(x);
  }

  /** The number of kept names is the number of names that are not blank. */
  lemma {:induction false} KeptCount(names: seq<string>)
    ensures |Kept(names)| == CountNonBlank(names)
  {
    if names != [] {
      assert names == [names[0]] + names[1..];
      KeptConcat([names[0]], names[1..]);
      KeptSingle(names[0]);
      KeptCount(names[1..]);
    }
  }

  /** No more names are kept than were given. */
  lemma {:induction false} KeptNoLonger(names: seq<string>)
    ensures |Kept(names)| <= |names|
  {
    if names != [] {
      KeptNoLonger(names[..|names| - 1]);
    }
  }

  /** A name as it is stored: non-empty, without white space at either end. */
  predicate IsStoredName(name: string)
  {
    name != "" && Trim(name) == name
  }

  /** Every kept name is non-empty and has no white space at either end. */
  lemma {:induction false} KeptTrimmed(names: seq<string>)
    ensures forall k :: 0 <= k < |Kept(names)| ==> IsStoredName(Kept(names)[k])
  {
    if names != [] {
      var init := names[..|names| - 1];
      var last := names[|names| - 1];
      KeptTrimmed(init);
      if !Blank(last) {
        TrimIdempotent(last);
        assert IsStoredName(Trim(last));
      }
    }
  }

  /** `x` is the trimmed form of one of `names`. */
  ghost predicate TrimmedFrom(x: string, names: seq<string>)
  {
    exists j :: 0 <= j < |names| && x == Trim(names[j])
  }

  /** Every kept name is the trimmed form of one of the given names. */
  lemma {:induction false} KeptFromInput(names: seq<string>)
    ensures forall k :: 0 <= k < |Kept(names)| ==> TrimmedFrom(Kept(names)[k], names)
  {
    if names != [] {
      var init := names[..|names| - 1];
      var last := names[|names| - 1];
      KeptFromInput(init);
      var tail := if Blank(last) then [] else [Trim(last)];
      assert Kept(names) == Kept(init) + tail;
      forall k | 0 <= k < |Kept(names)| ensures TrimmedFrom(Kept(names)[k], names) {
        if k < |Kept(init)| {
          var j :| 0 <= j < |init| && Kept(init)[k] == Trim(init[j]);
          assert names[j] == init[j];
          assert Kept(names)[k] == Kept(init)[k];
        } else {
          assert Kept(names)[k] == Trim(names[|names| - 1]);
        }
      }
    }
  }

  /** The participant rows for the kept names of a new split: row `k` carries
      the `k`-th fresh id, the split's id, the `k`-th kept name, and the
      column defaults (not paid, no payment time). */
  function Rows(splitId: Id, names: seq<string>, ids: seq<Id>): (rows: seq<Participant>)
    requires |names| <= |ids|
    ensures |rows| == |names|
  {
    if names == [] then []
    else
      var n := |names| - 1;
      Rows(splitId, names[..n], ids) + [Participant(ids[n], splitId, names[n], false, None)]
  }

  /** Row `k` is the `k`-th name's row under the `k`-th id. */
  lemma {:induction false} RowsAt(splitId: Id, names: seq<string>, ids: seq<Id>)
    requires |names| <= |ids|
    ensures forall k :: 0 <= k < |names| ==>
              Rows(splitId, names, ids)[k] == Participant(ids[k], splitId, names[k], false, None)
  {
    if names != [] {
      var n := |names| - 1;
      RowsAt(splitId, names[..n], ids);
    }
  }

  /** The participant rows a successful request appends: one per non-blank
      name, in order, each tied to the new split, with a trimmed name and a
      distinct fresh id. */
  lemma AppendedRows(splitId: Id, names: seq<string>, ids: seq<Id>)
    requires |names| <= |ids|
    requires forall i, j :: 0 <= i < j < |ids| ==> ids[i] != ids[j]
    ensures |Kept(names)| <= |ids|
    ensures |Rows(splitId, Kept(names), ids)| == CountNonBlank(names)
    ensures forall k :: 0 <= k < |Rows(splitId, Kept(names), ids)| ==>
              var p := Rows(splitId, Kept(names), ids)[k];
              p.splitId == splitId && p.name != "" && Trim(p.name) == p.name &&
              !p.hasPaid && p.markedPaidAt == None
    ensures UniqueParticipantIds(Rows(splitId, Kept(names), ids))
  {
    KeptNoLonger(names);
    KeptCount(names);
    KeptTrimmed(names);
    RowsAt(splitId, Kept(names), ids);
  }

  /** One more string entry adds its text. */
  lemma TextsSnoc(items: seq<Value>, i: nat)
    requires i < |items|
    requires forall j :: 0 <= j <= i ==> items[j].Str?
    ensures Texts(items[..i + 1]) == Texts(items[..i]) + [items[i].s]
  {
    assert items[..i + 1][..i] == items[..i];
  }

  /** Rows for one more name end in that name's row. */
  lemma RowsSnoc(splitId: Id, names: seq<string>, name: string, ids: seq<Id>)
    requires |names| < |ids|
    ensures Rows(splitId, names + [name], ids) ==
              Rows(splitId, names, ids) + [Participant(ids[|names|], splitId, name, false, None)]
  {
    assert (names + [name])[..|names|] == names;
  }

  /** The rows the participant loop has inserted after walking `names`, built
      the way the loop builds them: the next row takes the next unused id. */
  function InsertedRows(splitId: Id, names: seq<string>, ids: seq<Id>): (rows: seq<Participant>)
    requires |names| <= |ids|
    ensures |rows| <= |names|
  {
    if names == [] then []
    else
      var n := |names| - 1;
      var prev := InsertedRows(splitId, names[..n], ids);
      if Blank(names[n]) then prev
      else prev + [Participant(ids[|prev|], splitId, Trim(names[n]), false, None)]
  }

  /** One more name: a blank one inserts nothing, any other one row. */
  lemma InsertedRowsSnoc(splitId: Id, names: seq<string>, x: string, ids: seq<Id>)
    requires |names| < |ids|
    ensures InsertedRows(splitId, names + [x], ids) ==
              var prev := InsertedRows(splitId, names, ids);
              if Blank(x) then prev
              else prev + [Participant(ids[|prev|], splitId, Trim(x), false, None)]
  {
    assert (names + [x])[..|names|] == names;
  }

  /** The loop's rows are the rows of the kept names under the first ids. */
  lemma {:induction false} InsertedRowsAreRows(splitId: Id, names: seq<string>, ids: seq<Id>)
    requires |names| <= |ids|
    ensures |Kept(names)| <= |ids|
    ensures InsertedRows(splitId, names, ids) == Rows(splitId, Kept(names), ids)
  {
    KeptNoLonger(names);
    if names != [] {
      var n := |names| - 1;
      var init := names[..n];
      InsertedRowsAreRows(splitId, init, ids);
      if !Blank(names[n]) {
        KeptNoLonger(init);
        assert Kept(names) == Kept(init) + [Trim(names[n])];
        RowsSnoc(splitId, Kept(init), Trim(names[n]), ids);
      } else {
        assert Kept(names) == Kept(init);
      }
    }
  }

  /** An array of strings is walked to the end, so the handler answers 201. */
  lemma StringArrayCompletes(items: seq<Value>)
    requires forall j :: 0 <= j < |items| ==> items[j].Str?
    ensures TextPrefixLength(items) == |items|
  {
  }

  /** The participant ids the loop may use are pairwise distinct and not a
      participant's id. */
  ghost predicate FreshParticipantIds(participants: seq<Participant>, ids: seq<Id>)
  {
    (forall i, j :: 0 <= i < j < |ids| ==> ids[i] != ids[j]) &&
    (forall i :: 0 <= i < |ids| ==> ids[i] !in ParticipantIds(participants))
  }

  /** The ids CreateSplit may use are unused: the split id is not a split's
      id, and the participant ids are fresh. This stands for the UUID
      generator. */
  ghost predicate FreshIds(splits: seq<Split>, participants: seq<Participant>, splitId: Id, ids: seq<Id>)
  {
    splitId !in SplitIds(splits) && FreshParticipantIds(participants, ids)
  }

  /** The two tables the route writes. */
  class Ledger {
    var splits: seq<Split>
    var participants: seq<Participant>

    /** Primary keys hold and every participant names an existing split. */
    ghost predicate Valid()
      reads this
    {
      UniqueSplitIds(splits) && UniqueParticipantIds(participants) &&
      SplitsReferenced(splits, participants)
    }

    constructor ()
      ensures Valid() && splits == [] && participants == []
    {
      splits := [];
      participants := [];
    }

    /** The `POST` handler. `splitId` and `participantIds` are the values the
        UUID generator would return, in the order the handler asks for them;
        `now` is the database clock. */
    method CreateSplit(req: Request, splitId: Id, participantIds: seq<Id>, now: Timestamp)
      returns (resp: Response)
      requires Valid()
      requires FreshIds(splits, participants, splitId, participantIds)
      requires |Entries(req.participantNames)| <= |participantIds|
      modifies this
      ensures Valid()
      ensures !HasRequiredFields(req) ==>
                resp == MissingFields && splits == old(splits) && participants == old(participants)
      ensures HasRequiredFields(req) ==>
                var items := Entries(req.participantNames);
                var kept := Kept(Texts(items[..TextPrefixLength(items)]));
                |kept| <= |participantIds| &&
                splits == old(splits) + [NewSplit(req, splitId, now)] &&
                participants == old(participants) + Rows(splitId, kept, participantIds) &&
                resp == (if TextPrefixLength(items) == |items| then Created(splitId) else Failed)
      // Without an array of names the loop is skipped: a split alone, and 201.
      ensures HasRequiredFields(req) && !req.participantNames.Array? ==>
                participants == old(participants) && resp == Created(splitId)
      ensures Status(resp) == 400 <==> !HasRequiredFields(req)
      ensures Status(resp) == 201 <==>
                HasRequiredFields(req) &&
                TextPrefixLength(Entries(req.participantNames)) == |Entries(req.participantNames)|
      ensures Status(resp) == 500 <==>
                HasRequiredFields(req) &&
                TextPrefixLength(Entries(req.participantNames)) < |Entries(req.participantNames)|
    {
      if !HasRequiredFields(req) {
        return MissingFields;
      }
      ghost var splits0 := splits;
      var split := NewSplit(req, splitId, now);
      splits := splits + [split];
      SplitAppendedValid(splits0, participants, split);
      var items := Entries(req.participantNames);
      var complete := InsertParticipants(splitId, items, participantIds);
      if !complete {
        // `name.trim` is not a function for a non-string entry: the exception
        // ends the handler with the rows inserted so far left in place.
        return Failed;
      }
      return Created(splitId);
    }

    /** The participant loop: for each entry, in order, insert a row for its
        trimmed text unless that is blank. It stops at the first entry that is
        not a string (where `name.trim()` throws) and reports whether it went
        through every entry. */
    method InsertParticipants(splitId: Id, items: seq<Value>, ids: seq<Id>) returns (complete: bool)
      requires Valid()
      requires splitId in SplitIds(splits)
      requires FreshParticipantIds(participants, ids)
      requires |items| <= |ids|
      modifies this`participants
      ensures Valid()
      ensures complete == (TextPrefixLength(items) == |items|)
      ensures |Kept(Texts(items[..TextPrefixLength(items)]))| <= |ids|
      ensures participants ==
                old(participants) + Rows(splitId, Kept(Texts(items[..TextPrefixLength(items)])), ids)
    {
      ghost var n := TextPrefixLength(items);
      ghost var before := participants;
      var i, k := 0, 0;
      ghost var names: seq<string> := [];
      // The loop ends early at an entry that is not a string: there
      // `name.trim` is not a function and the handler throws.
      while i < |items| && items[i].Str?
        invariant 0 <= i <= n
        invariant names == Texts(items[..i])
        invariant k == |InsertedRows(splitId, names, ids)|
        invariant participants == before + InsertedRows(splitId, names, ids)
      {
        TextsSnoc(items, i);
        InsertedRowsSnoc(splitId, names, items[i].s, ids);
        var name := Trim(items[i].s);
        if name != "" {
          participants := participants + [Participant(ids[k], splitId, name, false, None)];
          k := k + 1;
        }
        names := names + [items[i].s];
        i := i + 1;
      }
      assert i == n;
      InsertedRowsAreRows(splitId, names, ids);
      assert names == Texts(items[..TextPrefixLength(items)]);
      RowsAppendedValid(splits, before, splitId, Kept(names), ids);
      complete := i == |items|;
    }

    /** Appending a split under an unused id keeps the split ids unique, and
        the participants still name existing splits. */
    static lemma SplitAppendedValid(splits0: seq<Split>, participants: seq<Participant>, split: Split)
      requires UniqueSplitIds(splits0) && SplitsReferenced(splits0, participants)
      requires split.id !in SplitIds(splits0)
      ensures UniqueSplitIds(splits0 + [split])
      ensures SplitsReferenced(splits0 + [split], participants)
      ensures split.id in SplitIds(splits0 + [split])
    {
      var ss := splits0 + [split];
      assert ss[|splits0|] == split;
      forall i | 0 <= i < |participants| ensures participants[i].splitId in SplitIds(ss) {
        var j :| 0 <= j < |splits0| && splits0[j].id == participants[i].splitId;
        assert ss[j] == splits0[j];
      }
    }

    /** Appending the rows of a split that exists, under fresh distinct ids,
        keeps the participant ids unique and every participant naming an
        existing split. */
    static lemma RowsAppendedValid(splits: seq<Split>, participants0: seq<Participant>, splitId: Id,
                                   kept: seq<string>, ids: seq<Id>)
      requires UniqueParticipantIds(participants0) && SplitsReferenced(splits, participants0)
      requires splitId in SplitIds(splits)
      requires FreshParticipantIds(participants0, ids)
      requires |kept| <= |ids|
      ensures UniqueParticipantIds(participants0 + Rows(splitId, kept, ids))
      ensures SplitsReferenced(splits, participants0 + Rows(splitId, kept, ids))
    {
      var ps := participants0 + Rows(splitId, kept, ids);
      RowsAt(splitId, kept, ids);
      forall i | 0 <= i < |ps| ensures ps[i].splitId in SplitIds(splits) {
        if i < |participants0| {
          assert ps[i] == participants0[i];
        }
      }
      forall i, j | 0 <= i < j < |ps| ensures ps[i].id != ps[j].id {
        if j >= |participants0| && i < |participants0| {
          assert ps[j].id == ids[j - |participants0|];
          assert ps[i].id in ParticipantIds(participants0);
        }
      }
    }
  }
}
