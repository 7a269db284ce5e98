/** The admin actions on positions (a person's rank in an organisation for
    one semester): the four rank actions and `refresh`, which extends
    selected positions into the current academic year. */
module PositionAdmin {

  /** A position row.  `pos` is the rank inside the organisation, 0 being
      its head; `id` is the primary key. */
  datatype Position = Position(id: nat, person: nat, org: nat, year: int, semester: string,
                               isAdmin: bool, pos: int, status: bool)

  /** How one position is changed by a rank action. */
  datatype RankAction = Demote | Promote | ToMember | ToManager

  /** `demote`: the rank number grows by one (a lower rank). */
  function Demoted(p: Position): (r: Position)
    ensures r.pos == p.pos + 1
    ensures r.(pos := p.pos) == p
  {
    p.(pos := p.pos + 1)
  }

  /** `promote`: the rank number shrinks by one, never below 0. */
  function Promoted(p: Position): (r: Position)
    ensures r.pos >= 0
    ensures p.pos >= 1 ==> r.pos == p.pos - 1
    ensures p.pos <= 0 ==> r.pos == 0
    ensures r.(pos := p.pos) == p
  {
    p.(pos := if p.pos - 1 > 0 then p.pos - 1 else 0)
  }

  /** `to_member`: the rank past the last named rank of the organisation's
      type (its `length`), and no admin right. */
  function AsMember(p: Position, length: int): (r: Position)
    ensures r.pos == length && !r.isAdmin
    ensures r.(pos := p.pos, isAdmin := p.isAdmin) == p
  {
    p.(pos := length, isAdmin := false)
  }

  /** `to_manager`: the head rank, with the admin right. */
  function AsManager(p: Position): (r: Position)
    ensures r.pos == 0 && r.isAdmin
    ensures r.(pos := p.pos, isAdmin := p.isAdmin) == p
  {
    p.(pos := 0, isAdmin := true)
  }

  /** The row an action saves for `p`; `typeLength` gives the length of an
      organisation's type. */
  function Act(action: RankAction, p: Position, typeLength: nat -> int): (r: Position)
    ensures r.(pos := p.pos, isAdmin := p.isAdmin) == p
    ensures action == Demote || action == Promote ==> r.isAdmin == p.isAdmin
    ensures action == ToMember || action == ToManager ==> r.isAdmin == (action == ToManager)
  {
    match action
    case Demote => Demoted(p)
    case Promote => Promoted(p)
    case ToMember => AsMember(p, typeLength(p.org))
    case ToManager => AsManager(p)
  }

  /** Promoting undoes demoting for any rank at or below the head. */
  lemma PromoteUndoesDemote(p: Position)
    requires p.pos >= 0
    ensures Promoted(Demoted(p)) == p
  {
  }

  /** Demoting undoes promoting except at the head, where promoting does
      nothing and demoting then lowers the rank. */
  lemma DemoteUndoesPromote(p: Position)
    ensures Demoted(Promoted(p)) == p <==> p.pos >= 1
  {
    if p.pos < 1 {
      assert Demoted(Promoted(p)).pos == 1;
    }
  }

  /** Promoting a head again changes nothing. */
  lemma PromoteAtHeadIsStable(p: Position)
    requires p.pos == 0
    ensures Promoted(p) == p
  {
  }

  /** The last of `to_member` and `to_manager` wins, and only rank and admin
      right are ever touched, so the two overwrite each other exactly. */
  lemma MemberAndManagerOverwrite(p: Position, length: int)
    ensures AsManager(AsMember(p, length)) == AsManager(p)
    ensures AsMember(AsManager(p), length) == AsMember(p, length)
  {
  }

  /** A rank action never changes a position's key, person, organisation,
      year, semester or status. */
  lemma ActKeepsIdentity(action: RankAction, p: Position, typeLength: nat -> int)
    ensures var r := Act(action, p, typeLength);
            && r.id == p.id && r.person == p.person && r.org == p.org
            && r.year == p.year && r.semester == p.semester && r.status == p.status
  {
    match action {
      case Demote =>
        assert Act(action, p, typeLength).(pos := p.pos) == p;
      case Promote =>
        assert Act(action, p, typeLength).(pos := p.pos) == p;
      case ToMember =>
        assert Act(action, p, typeLength).(pos := p.pos, isAdmin := p.isAdmin) == p;
      case ToManager =>
        assert Act(action, p, typeLength).(pos := p.pos, isAdmin := p.isAdmin) == p;
    }
  }

  /** Some position of `rows` is the one of `person` in `org` for `year`. */
  predicate HasPositionIn(rows: seq<Position>, person: nat, org: nat, year: int)
  {
    exists i :: 0 <= i < |rows| && rows[i].person == person && rows[i].org == org && rows[i].year == year
  }

  /** The (person, organisation, year) of every row of the table. */
  function PositionKeys(rows: seq<Position>): set<(nat, nat, int)>
  {
    set p | p in rows :: (p.person, p.org, p.year)
  }

  /** The existence test asks whether the triple is among the table's keys. */
  lemma HasPositionInKeys(rows: seq<Position>, person: nat, org: nat, year: int)
    ensures HasPositionIn(rows, person, org, year) <==> (person, org, year) in PositionKeys(rows)
  {
    if (person, org, year) in PositionKeys(rows) {
      var p :| p in rows && (p.person, p.org, p.year) == (person, org, year);
      var i :| 0 <= i < |rows| && rows[i] == p;
    }
  }

  /** `p`'s copy for `year` under the key `id`. */
  function CopyFor(p: Position, year: int, id: nat): (r: Position)
    ensures r.year == year && r.id == id
    ensures r.(year := p.year, id := p.id) == p
  {
    p.(year := year, id := id)
  }

  /** The position table. */
  class PositionTable {
    var rows: seq<Position>
    var nextId: nat  // the key the next inserted row receives

    constructor ()
      ensures rows == [] && nextId == 0
    {
      rows := [];
      nextId := 0;
    }

    /** The loop shared by the four rank actions: each selected position,
        as it was fetched, is changed by `action` and saved back.  Saving a
        position twice writes the same row twice. */
    method Apply(selected: seq<nat>, action: RankAction, typeLength: nat -> int)
      requires forall k :: 0 <= k < |selected| ==> selected[k] < |rows|
      modifies this
      ensures |rows| == |old(rows)| && nextId == old(nextId)
      ensures forall r :: 0 <= r < |rows| ==>
                rows[r] == if r in selected then Act(action, old(rows)[r], typeLength) else old(rows)[r]
    {
      var fetched := rows;
      var i := 0;
      while i < |selected|
        invariant 0 <= i <= |selected|
        invariant |rows| == |fetched| && nextId == old(nextId)
        invariant forall r :: 0 <= r < |rows| ==>
                    rows[r] == if r in selected[..i] then Act(action, fetched[r], typeLength) else fetched[r]
      {
        var k := selected[i];
        var p := Act(action, fetched[k], typeLength);
        rows := rows[k := p];
        assert selected[..i + 1] == selected[..i] + [k];
        i := i + 1;
      }
      assert selected[..|selected|] == selected;
    }

    /** `demote` on the selected positions. */
    method DemoteAll(selected: seq<nat>)
      requires forall k :: 0 <= k < |selected| ==> selected[k] < |rows|
      modifies this
      ensures |rows| == |old(rows)| && nextId == old(nextId)
      ensures forall r :: 0 <= r < |rows| ==>
                rows[r] == if r in selected then Demoted(old(rows)[r]) else old(rows)[r]
    {
      Apply(selected, Demote, _ => 0);
    }

    /** `promote` on the selected positions. */
    method PromoteAll(selected: seq<nat>)
      requires forall k :: 0 <= k < |selected| ==> selected[k] < |rows|
      modifies this
      ensures |rows| == |old(rows)| && nextId == old(nextId)
      ensures forall r :: 0 <= r < |rows| ==>
                rows[r] == if r in selected then Promoted(old(rows)[r]) else old(rows)[r]
    {
      Apply(selected, Promote, _ => 0);
    }

    /** `to_member` on the selected positions. */
    method ToMemberAll(selected: seq<nat>, typeLength: nat -> int)
      requires forall k :: 0 <= k < |selected| ==> selected[k] < |rows|
      modifies this
      ensures |rows| == |old(rows)| && nextId == old(nextId)
      ensures forall r :: 0 <= r < |rows| ==>
                rows[r] == if r in selected then AsMember(old(rows)[r], typeLength(old(rows)[r].org)) else old(rows)[r]
    {
      Apply(selected, ToMember, typeLength);
    }

    /** `to_manager` on the selected positions. */
    method ToManagerAll(selected: seq<nat>)
      requires forall k :: 0 <= k < |selected| ==> selected[k] < |rows|
      modifies this
      ensures |rows| == |old(rows)| && nextId == old(nextId)
      ensures forall r :: 0 <= r < |rows| ==>
                rows[r] == if r in selected then AsManager(old(rows)[r]) else old(rows)[r]
    {
      Apply(selected, ToManager, _ => 0);
    }

    /** `refresh`: each selected position, as fetched, whose year is not
        `year` and whose person has no position in its organisation for
        `year` yet (counting the copies made so far) is copied into `year`
        under a new key.  The answer lists the new keys with their persons. */
    method Refresh(selected: seq<nat>, year: int) returns (added: seq<(nat, nat)>)
      requires forall k :: 0 <= k < |selected| ==> selected[k] < |rows|
      modifies this
      ensures rows == old(rows) + RefreshCopies(old(rows), selected, year, old(nextId), |selected|)
      ensures added == Answer(rows[|old(rows)|..])
      ensures nextId == old(nextId) + |added|
      ensures CopiesMade(old(rows), rows[|old(rows)|..], added, old(nextId), selected, year)
      ensures Covered(rows, old(rows), selected, |selected|, year)
    {
      var fetched := rows;
      var start := nextId;
      var table, key := rows, nextId;
      added := [];
      ghost var copies: seq<Position> := [];
      var i := 0;
      while i < |selected|
        invariant 0 <= i <= |selected|
        invariant copies == RefreshCopies(fetched, selected, year, start, i)
        invariant table == fetched + copies
        invariant key == start + |copies|
        invariant added == Answer(copies)
      {
        var p := fetched[selected[i]];
        if p.year != year && !HasPositionIn(table, p.person, p.org, year) {
          var copy := CopyFor(p, year, key);
          table := table + [copy];
          added := added + [(copy.id, copy.person)];
          key := key + 1;
          copies := copies + [copy];
        }
        i := i + 1;
      }
      rows, nextId := table, key;
      assert rows[|fetched|..] == copies;
      RefreshCopiesSound(fetched, selected, year, start, |selected|);
      assert selected[..|selected|] == selected;
    }
  }

  /** The rows `refresh` appends for the first `i` selected positions, in
      order: the `i`-th, as fetched, is copied under the next free key when
      its year is not `year` and neither the fetched table nor an earlier
      copy places its person in its organisation for `year`. */
  function RefreshCopies(fetched: seq<Position>, selected: seq<nat>, year: int, startId: nat, i: nat): (r: seq<Position>)
    requires i <= |selected| && forall k :: 0 <= k < |selected| ==> selected[k] < |fetched|
    ensures |r| <= i
  {
    if i == 0 then []
    else
      var before := RefreshCopies(fetched, selected, year, startId, i - 1);
      var p := fetched[selected[i - 1]];
      if p.year != year && !HasPositionIn(fetched + before, p.person, p.org, year)
      then before + [CopyFor(p, year, startId + |before|)]
      else before
  }

  /** One more selected position adds its copy or nothing. */
  lemma RefreshCopiesStep(fetched: seq<Position>, selected: seq<nat>, year: int, startId: nat, i: nat)
    requires 0 < i <= |selected| && forall k :: 0 <= k < |selected| ==> selected[k] < |fetched|
    ensures var before := RefreshCopies(fetched, selected, year, startId, i - 1);
            var p := fetched[selected[i - 1]];
            RefreshCopies(fetched, selected, year, startId, i) ==
              if p.year != year && !HasPositionIn(fetched + before, p.person, p.org, year)
              then before + [CopyFor(p, year, startId + |before|)]
              else before
  {
  }

  /** The answer of `refresh` for the rows it appended: their keys with their persons. */
  function Answer(copies: seq<Position>): seq<(nat, nat)>
  {
    seq(|copies|, k requires 0 <= k < |copies| => (copies[k].id, copies[k].person))
  }

  /** The answer of one more copy ends with that copy's key and person. */
  lemma AnswerAppend(copies: seq<Position>, copy: Position)
    ensures Answer(copies + [copy]) == Answer(copies) + [(copy.id, copy.person)]
  {
  }

  /** The copies `RefreshCopies` makes are made as `refresh` promises, and
      leave every selected position whose year differs represented in `year`. */
  lemma {:induction false} RefreshCopiesSound(fetched: seq<Position>, selected: seq<nat>, year: int, startId: nat, i: nat)
    requires i <= |selected| && forall k :: 0 <= k < |selected| ==> selected[k] < |fetched|
    ensures CopiesMade(fetched, RefreshCopies(fetched, selected, year, startId, i),
                       Answer(RefreshCopies(fetched, selected, year, startId, i)), startId, selected[..i], year)
    ensures Covered(fetched + RefreshCopies(fetched, selected, year, startId, i), fetched, selected, i, year)
  {
    if i > 0 {
      var k := i - 1;
      var before := RefreshCopies(fetched, selected, year, startId, k);
      var p := fetched[selected[k]];
      RefreshCopiesStep(fetched, selected, year, startId, i);
      RefreshCopiesSound(fetched, selected, year, startId, k);
      var now := RefreshCopies(fetched, selected, year, startId, i);
      if p.year != year && !HasPositionIn(fetched + before, p.person, p.org, year) {
        var copy := CopyFor(p, year, startId + |before|);
        assert now == before + [copy];
        CopyStep(fetched, before, Answer(before), startId, selected, k, year, copy);
        AnswerAppend(before, copy);
      } else {
        assert now == before;
        SkipStep(fetched, before, Answer(before), startId, selected, k, year);
      }
    }
  }

  /** `r` is the copy for `year` of a selected position whose year differs. */
  predicate IsCopyOfSelected(r: Position, fetched: seq<Position>, selected: seq<nat>, year: int)
  {
    exists j :: 0 <= j < |selected| && selected[j] < |fetched| && fetched[selected[j]].year != year
                && r == CopyFor(fetched[selected[j]], year, r.id)
  }

  /** The rows `copies` appended to `fetched` by `refresh`, answered as
      `added`: each is the copy of a selected position into `year`, keyed in
      insertion order from `startId`, and none duplicates a position of its
      person and organisation for `year` already in the table. */
  predicate CopiesMade(fetched: seq<Position>, copies: seq<Position>, added: seq<(nat, nat)>,
                       startId: nat, selected: seq<nat>, year: int)
  {
    && |added| == |copies|
    && forall k :: 0 <= k < |copies| ==>
         && added[k] == (copies[k].id, copies[k].person)
         && copies[k].id == startId + k
         && IsCopyOfSelected(copies[k], fetched, selected, year)
         && !HasPositionIn(fetched + copies[..k], copies[k].person, copies[k].org, year)
  }

  /** Every one of the first `i` selected positions whose year is not `year`
      has a position for `year` in `rows`. */
  predicate Covered(rows: seq<Position>, fetched: seq<Position>, selected: seq<nat>, i: nat, year: int)
    requires i <= |selected| && forall k :: 0 <= k < |selected| ==> selected[k] < |fetched|
  {
    forall j :: 0 <= j < i && fetched[selected[j]].year != year ==>
      HasPositionIn(rows, fetched[selected[j]].person, fetched[selected[j]].org, year)
  }

  /** A copy of a position among the first `i` selected is one among the
      first `i + 1`. */
  lemma CopiesOfWiderSelection(fetched: seq<Position>, copies: seq<Position>, added: seq<(nat, nat)>,
                               startId: nat, selected: seq<nat>, i: nat, year: int)
    requires i < |selected|
    requires CopiesMade(fetched, copies, added, startId, selected[..i], year)
    ensures CopiesMade(fetched, copies, added, startId, selected[..i + 1], year)
  {
    forall k | 0 <= k < |copies|
      ensures IsCopyOfSelected(copies[k], fetched, selected[..i + 1], year)
    {
      var j :| 0 <= j < i && selected[..i][j] < |fetched| && fetched[selected[..i][j]].year != year
               && copies[k] == CopyFor(fetched[selected[..i][j]], year, copies[k].id);
      assert selected[..i + 1][j] == selected[..i][j];
    }
  }

  /** A selected position that refresh skips: its year is `year`, or its
      person already holds a position in its organisation for `year`. */
  lemma SkipStep(fetched: seq<Position>, copies: seq<Position>, added: seq<(nat, nat)>,
                 startId: nat, selected: seq<nat>, i: nat, year: int)
    requires i < |selected| && forall k :: 0 <= k < |selected| ==> selected[k] < |fetched|
    requires CopiesMade(fetched, copies, added, startId, selected[..i], year)
    requires Covered(fetched + copies, fetched, selected, i, year)
    requires var p := fetched[selected[i]];
             p.year == year || HasPositionIn(fetched + copies, p.person, p.org, year)
    ensures CopiesMade(fetched, copies, added, startId, selected[..i + 1], year)
    ensures Covered(fetched + copies, fetched, selected, i + 1, year)
  {
    CopiesOfWiderSelection(fetched, copies, added, startId, selected, i, year);
  }

  /** A selected position that refresh copies: the copy is new for its
      person and organisation, and afterwards they have a position for `year`. */
  lemma CopyStep(fetched: seq<Position>, copies: seq<Position>, added: seq<(nat, nat)>,
                 startId: nat, selected: seq<nat>, i: nat, year: int, copy: Position)
    requires i < |selected| && forall k :: 0 <= k < |selected| ==> selected[k] < |fetched|
    requires CopiesMade(fetched, copies, added, startId, selected[..i], year)
    requires Covered(fetched + copies, fetched, selected, i, year)
    requires var p := fetched[selected[i]];
             && p.year != year && !HasPositionIn(fetched + copies, p.person, p.org, year)
             && copy == CopyFor(p, year, startId + |copies|)
    ensures CopiesMade(fetched, copies + [copy], added + [(copy.id, copy.person)], startId, selected[..i + 1], year)
    ensures Covered(fetched + (copies + [copy]), fetched, selected, i + 1, year)
  {
    CopiesOfWiderSelection(fetched, copies, added, startId, selected, i, year);
    assert IsCopyOfSelected(copy, fetched, selected[..i + 1], year) by {
      assert selected[..i + 1][i] == selected[i];
    }
    var copies' := copies + [copy];
    assert copies'[..|copies|] == copies;
    assert forall k :: 0 <= k < |copies| ==> copies'[..k] == copies[..k];
    var rows := fetched + copies';
    assert rows[..|fetched + copies|] == fetched + copies;
    GrowingKeepsPositions(fetched + copies, rows);
    assert rows[|fetched + copies|] == copy;
  }

  /** No person holds two positions in the same organisation for `year`. */
  predicate OnePerOrgIn(rows: seq<Position>, year: int)
  {
    forall a, b :: 0 <= a < b < |rows| && rows[a].year == year && rows[b].year == year ==>
      rows[a].person != rows[b].person || rows[a].org != rows[b].org
  }

  /** `refresh` creates no duplicate: a table with at most one position per
      person and organisation for `year` keeps that property once the
      copies are appended. */
  lemma RefreshAddsNoDuplicate(fetched: seq<Position>, copies: seq<Position>, added: seq<(nat, nat)>,
                               startId: nat, selected: seq<nat>, year: int)
    requires OnePerOrgIn(fetched, year)
    requires CopiesMade(fetched, copies, added, startId, selected, year)
    ensures OnePerOrgIn(fetched + copies, year)
  {
    var rows := fetched + copies;
    forall a, b | 0 <= a < b < |rows| && rows[a].year == year && rows[b].year == year
      ensures rows[a].person != rows[b].person || rows[a].org != rows[b].org
    {
      if b >= |fetched| {
        var k := b - |fetched|;
        assert rows[b] == copies[k];
        var before := fetched + copies[..k];
        assert rows[a] == before[a];
        assert !HasPositionIn(before, copies[k].person, copies[k].org, year);
      } else {
        assert rows[a] == fetched[a] && rows[b] == fetched[b];
      }
    }
  }

  /** Every copy `refresh` makes belongs to `year`. */
  lemma RefreshCopiesAreCurrent(fetched: seq<Position>, copies: seq<Position>, added: seq<(nat, nat)>,
                                startId: nat, selected: seq<nat>, year: int)
    requires CopiesMade(fetched, copies, added, startId, selected, year)
    ensures forall k :: 0 <= k < |copies| ==> copies[k].year == year
  {
    forall k | 0 <= k < |copies|
      ensures copies[k].year == year
    {
      assert IsCopyOfSelected(copies[k], fetched, selected, year);
    }
  }

  /** A position found in a table is still found once rows are appended. */
  lemma GrowingKeepsPositions(prefix: seq<Position>, rows: seq<Position>)
    requires |prefix| <= |rows| && rows[..|prefix|] == prefix
    ensures forall person, org, year :: HasPositionIn(prefix, person, org, year) ==> HasPositionIn(rows, person, org, year)
  {
    forall person, org, year | HasPositionIn(prefix, person, org, year)
      ensures HasPositionIn(rows, person, org, year)
    {
      var i :| 0 <= i < |prefix| && prefix[i].person == person && prefix[i].org == org && prefix[i].year == year;
      assert rows[i] == prefix[i];
    }
  }
}
