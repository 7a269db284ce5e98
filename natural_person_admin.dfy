/**
 * The natural-person admin (app/admin.py, NaturalPersonAdmin): the bulk
 * import of users from an Excel sheet and the fieldset helper that shows a
 * detail field only when the person allows it.
 *
 * A sheet is a sequence of rows, a row a sequence of cells; the workbook
 * reader, the password hasher and the csv writer are outside the model (the
 * hasher is a parameter).  The import runs inside one transaction: either
 * every accepted row creates its user or, when some row fails, none does.
 */
module NaturalPersonAdmin {
  import opened Wrappers

  /** A cell as the workbook reader returns it. */
  datatype Cell = Blank | Value(text: string)

  type Row = seq<Cell>

  /** `str(cell)`: an empty cell reads as "None". */
  function CellText(c: Cell): string
  {
    match c
    case Blank => "None"
    case Value(t) => t
  }

  /** The code-point ranges of the characters Python's `str.isspace`
      accepts, which `str.strip()` removes from both ends. */
  const SpaceRanges: seq<(char, char)> :=
    [(' ', ' '), ('\t', '\r'), ('\U{1C}', '\U{1F}'), ('\U{85}', '\U{85}'), ('\U{A0}', '\U{A0}'),
     ('\U{1680}', '\U{1680}'), ('\U{2000}', '\U{200A}'), ('\U{2028}', '\U{2029}'),
     ('\U{202F}', '\U{202F}'), ('\U{205F}', '\U{205F}'), ('\U{3000}', '\U{3000}')]

  /** `c` lies in one of the ranges `rs`. */
  predicate InRanges(c: char, rs: seq<(char, char)>)
  {
    |rs| > 0 && (rs[0].0 <= c <= rs[0].1 || InRanges(c, rs[1..]))
  }

  predicate IsSpace(c: char)
  {
    InRanges(c, SpaceRanges)
  }

  /** Removing the leading whitespace. */
  function StripLeft(s: string): (r: string)
    ensures |r| <= |s|
  {
    if |s| > 0 && IsSpace(s[0]) then StripLeft(s[1..]) else s
  }

  /** Removing the trailing whitespace. */
  function StripRight(s: string): (r: string)
    ensures |r| <= |s|
  {
    if |s| > 0 && IsSpace(s[|s| - 1]) then StripRight(s[..|s| - 1]) else s
  }

  /** `StripLeft` keeps a suffix that does not start with whitespace and cuts
      off only whitespace. */
  lemma {:induction false} StripLeftSpec(s: string)
    ensures var r := StripLeft(s);
            && r == s[|s| - |r|..]
            && (forall i :: 0 <= i < |s| - |r| ==> IsSpace(s[i]))
            && (|r| > 0 ==> !IsSpace(r[0]))
  {
    if |s| > 0 && IsSpace(s[0]) {
      StripLeftSpec(s[1..]);
      assert forall i :: 1 <= i < |s| ==> s[i] == s[1..][i - 1];
    }
  }

  /** `StripRight` keeps a prefix that does not end with whitespace and cuts
      off only whitespace. */
  lemma {:induction false} StripRightSpec(s: string)
    ensures var r := StripRight(s);
            && r == s[..|r|]
            && (forall i :: |r| <= i < |s| ==> IsSpace(s[i]))
            && (|r| > 0 ==> !IsSpace(r[|r| - 1]))
  {
    if |s| > 0 && IsSpace(s[|s| - 1]) {
      StripRightSpec(s[..|s| - 1]);
      assert forall i :: 0 <= i < |s| - 1 ==> s[i] == s[..|s| - 1][i];
    }
  }

  /** `str.strip()`: whitespace removed from both ends. */
  function Strip(s: string): (r: string)
    ensures |r| <= |s|
  {
    StripRight(StripLeft(s))
  }

  /** What `Strip` keeps is a slice of `s` that neither starts nor ends with
      whitespace, and what it cuts off is whitespace. */
  lemma StripSpec(s: string)
    ensures var r := Strip(s);
            var k := |s| - |StripLeft(s)|;
            && k + |r| <= |s| && r == s[k..k + |r|]
            && (forall i :: 0 <= i < k ==> IsSpace(s[i]))
            && (forall i :: k + |r| <= i < |s| ==> IsSpace(s[i]))
            && (|r| > 0 ==> !IsSpace(r[0]) && !IsSpace(r[|r| - 1]))
  {
    var l := StripLeft(s);
    StripLeftSpec(s);
    var r := StripRight(l);
    StripRightSpec(l);
    var k := |s| - |l|;
    assert l == s[k..];
    assert r == s[k..k + |r|] by {
      assert r == l[..|r|];
    }
    forall i | k + |r| <= i < |s|
      ensures IsSpace(s[i])
    {
      assert s[i] == l[i - k];
    }
  }

  /** Stripping twice is stripping once. */
  lemma StripIdempotent(s: string)
    ensures Strip(Strip(s)) == Strip(s)
  {
    var r := Strip(s);
    StripSpec(s);
    assert StripLeft(r) == r;
    assert StripRight(r) == r;
  }

  /** The field in column `k`, as the loop reads it. */
  function Field(row: Row, k: nat): string
    requires k < |row|
  {
    Strip(CellText(row[k]))
  }

  /** The values the loop treats as an empty field (`None` never equals a string). */
  predicate IsEmptyField(s: string)
  {
    s == "" || s == "None"
  }

  datatype Gender = Male | Female
  datatype UserType = Student | Teacher

  /** One imported user: the `User`, `NaturalPerson` and `Participant` rows
      a data row creates, and the password put on the list. */
  datatype NewUser = NewUser(sid: string, name: string, gender: Gender, email: string,
                             userType: UserType, password: string)

  /** Why an import fails.  A row shorter than five cells makes `row[k]`
      raise an IndexError whose message names no row; each failed check
      raises an AssertionError whose message names the 1-based sheet row. */
  datatype ImportError =
    | MissingColumn
    | BadEmail(row: nat, email: string)
    | BadGender(row: nat, gender: string)
    | BadIdentity(row: nat, identity: string)

  datatype RowOutcome = Skip | Accept(user: NewUser) | Reject(error: ImportError)

  /** The password of a new user: the first twelve characters of the hash of
      its student id. */
  function Password(hash: string -> string, sid: string): (r: string)
    ensures |r| == if |hash(sid)| < 12 then |hash(sid)| else 12
    ensures r == hash(sid)[..|r|]
  {
    var h := hash(sid);
    if |h| <= 12 then h else h[..12]
  }

  /** The five columns are present and none of them is empty. */
  predicate Complete(row: Row)
  {
    |row| >= 5 && forall k :: 0 <= k < 5 ==> !IsEmptyField(Field(row, k))
  }

  /** The three validity checks on a complete row, in the order the loop makes them. */
  predicate ValidEmail(row: Row)
    requires |row| >= 5
  {
    '@' in Field(row, 3)
  }

  predicate ValidGender(row: Row)
    requires |row| >= 5
  {
    Field(row, 2) == "男" || Field(row, 2) == "女"
  }

  predicate ValidIdentity(row: Row)
    requires |row| >= 5
  {
    Field(row, 4) == "学生" || Field(row, 4) == "教师"
  }

  /** The body of the row loop for a data row: a short row raises, a row
      with an empty field is skipped, a row failing a check raises with that
      check's error, and any other row creates a user. */
  function ReadRow(row: Row, rowIdx: nat, hash: string -> string): (r: RowOutcome)
    ensures r.Reject? && !r.error.MissingColumn? ==> r.error.row == rowIdx
    ensures r.Accept? ==> |row| >= 5 && r.user.sid == Field(row, 0) && r.user.password == Password(hash, Field(row, 0))
  {
    if |row| < 5 then Reject(MissingColumn)
    else
      var sid, name, gender, email, identity := Field(row, 0), Field(row, 1), Field(row, 2), Field(row, 3), Field(row, 4);
      if IsEmptyField(sid) || IsEmptyField(name) || IsEmptyField(gender) || IsEmptyField(email) || IsEmptyField(identity) then
        Skip
      else if '@' !in email then Reject(BadEmail(rowIdx, email))
      else if gender != "男" && gender != "女" then Reject(BadGender(rowIdx, gender))
      else if identity != "学生" && identity != "教师" then Reject(BadIdentity(rowIdx, identity))
      else
        Accept(NewUser(sid, name, if gender == "男" then Male else Female, email,
                       if identity == "学生" then Student else Teacher, Password(hash, sid)))
  }

  /** The cases of `ReadRow`: a short row raises, an incomplete row is
      skipped, the checks are made in order and each failure names its row,
      and an accepted row's user is built from its fields. */
  lemma ReadRowCases(row: Row, rowIdx: nat, hash: string -> string)
    ensures var r := ReadRow(row, rowIdx, hash);
            && (r == Reject(MissingColumn) <==> |row| < 5)
            && (r.Skip? <==> |row| >= 5 && !Complete(row))
            && (r.Accept? <==> Complete(row) && ValidEmail(row) && ValidGender(row) && ValidIdentity(row))
            && (r.Reject? && r.error.BadEmail? <==> Complete(row) && !ValidEmail(row))
            && (r.Reject? && r.error.BadGender? <==> Complete(row) && ValidEmail(row) && !ValidGender(row))
            && (r.Reject? && !r.error.MissingColumn? ==> r.error.row == rowIdx)
            && (r.Accept? ==>
                  && r.user.sid == Field(row, 0) && r.user.name == Field(row, 1) && r.user.email == Field(row, 3)
                  && (r.user.gender == Male <==> Field(row, 2) == "男")
                  && (r.user.userType == Student <==> Field(row, 4) == "学生")
                  && r.user.password == Password(hash, r.user.sid))
  {
    if |row| >= 5 && !Complete(row) {
      var k :| 0 <= k < 5 && IsEmptyField(Field(row, k));
      assert k == 0 || k == 1 || k == 2 || k == 3 || k == 4;
    }
  }

  /** What the fields of an accepted user look like: stripped, non-empty,
      an email with an '@'. */
  lemma AcceptedUserIsClean(row: Row, rowIdx: nat, hash: string -> string)
    requires ReadRow(row, rowIdx, hash).Accept?
    ensures var u := ReadRow(row, rowIdx, hash).user;
            && Strip(u.sid) == u.sid && Strip(u.name) == u.name && Strip(u.email) == u.email
            && !IsEmptyField(u.sid) && !IsEmptyField(u.name) && '@' in u.email
  {
    ReadRowCases(row, rowIdx, hash);
    StripIdempotent(CellText(row[0]));
    StripIdempotent(CellText(row[1]));
    StripIdempotent(CellText(row[3]));
    assert !IsEmptyField(Field(row, 0)) && !IsEmptyField(Field(row, 1));
  }

  /** The loop body as a function of a row and its 1-based index. */
  function Reader(hash: string -> string): (Row, nat) -> RowOutcome
  {
    (row: Row, rowIdx: nat) => ReadRow(row, rowIdx, hash)
  }

  /** On the data rows of a sheet, `Reader` reads as `ReadRow`. */
  lemma ReaderReadsRows(rows: seq<Row>, hash: string -> string)
    ensures forall i :: 1 <= i < |rows| ==> Reader(hash)(rows[i], i + 1) == ReadRow(rows[i], i + 1, hash)
  {
  }

  /** The outcomes of the data rows of a sheet, in order, for a loop body
      `read`; the first row (row 1) is the header and has none. */
  function Outcomes(rows: seq<Row>, read: (Row, nat) -> RowOutcome): (r: seq<RowOutcome>)
    ensures |r| == if |rows| <= 1 then 0 else |rows| - 1
  {
    if |rows| <= 1 then []
    else Outcomes(rows[..|rows| - 1], read) + [read(rows[|rows| - 1], |rows|)]
  }

  /** Entry `i - 1` of the outcomes is that of sheet row `i + 1`. */
  lemma {:induction false} OutcomesAt(rows: seq<Row>, i: nat, read: (Row, nat) -> RowOutcome)
    requires 1 <= i < |rows|
    ensures Outcomes(rows, read)[i - 1] == read(rows[i], i + 1)
  {
    var n := |rows| - 1;
    if i < n {
      OutcomesAt(rows[..n], i, read);
      assert rows[..n][i] == rows[i];
    }
  }

  /** Reading fewer rows gives a prefix of the outcomes. */
  lemma {:induction false} OutcomesPrefix(rows: seq<Row>, k: nat, read: (Row, nat) -> RowOutcome)
    requires 1 <= k <= |rows|
    ensures Outcomes(rows[..k], read) == Outcomes(rows, read)[..k - 1]
  {
    if k < |rows| {
      var n := |rows| - 1;
      assert rows[..n][..k] == rows[..k];
      OutcomesPrefix(rows[..n], k, read);
    } else {
      assert rows[..k] == rows;
    }
  }

  /** The header is never read. */
  lemma {:induction false} ImportIgnoresHeader(rows: seq<Row>, header: Row, read: (Row, nat) -> RowOutcome)
    requires |rows| >= 1
    ensures Outcomes([header] + rows[1..], read) == Outcomes(rows, read)
  {
    var other := [header] + rows[1..];
    if |rows| > 1 {
      var n := |rows| - 1;
      assert other[..n] == [header] + rows[..n][1..];
      ImportIgnoresHeader(rows[..n], header, read);
      assert other[n] == rows[n];
    }
  }

  /** The outcome of the whole loop: the users created, in row order, or the
      first error. */
  datatype ImportResult = Done(users: seq<NewUser>) | Failed(error: ImportError)

  /** The accumulation the loop performs over the outcomes: an accepted row
      appends its user, a raising row ends the import with its error. */
  function Collect(outs: seq<RowOutcome>): (r: ImportResult)
    ensures r.Failed? ==> Reject(r.error) in outs
  {
    if |outs| == 0 then Done([])
    else
      match Collect(outs[..|outs| - 1])
      case Failed(e) => Failed(e)
      case Done(users) =>
        match outs[|outs| - 1]
        case Skip => Done(users)
        case Accept(u) => Done(users + [u])
        case Reject(e) => Failed(e)
  }

  /** The row loop over a whole sheet: a failed check names a data row of
      the sheet, and a missing column comes from a short data row. */
  function Import(rows: seq<Row>, hash: string -> string): (r: ImportResult)
    ensures r.Failed? && !r.error.MissingColumn? ==> 2 <= r.error.row <= |rows|
    ensures r.Failed? && r.error.MissingColumn? ==> exists i :: 1 <= i < |rows| && |rows[i]| < 5
  {
    FailureNamesDataRow(rows, hash);
    Collect(Outcomes(rows, Reader(hash)))
  }

  /** The error of a failed loop over a sheet is raised by one of its data
      rows, which are rows 2 to `|rows|`: a failed check names that row, and
      a missing column means that row has fewer than five cells. */
  lemma FailureNamesDataRow(rows: seq<Row>, hash: string -> string)
    ensures Collect(Outcomes(rows, Reader(hash))).Failed? && !Collect(Outcomes(rows, Reader(hash))).error.MissingColumn? ==>
              2 <= Collect(Outcomes(rows, Reader(hash))).error.row <= |rows|
    ensures Collect(Outcomes(rows, Reader(hash))).Failed? && Collect(Outcomes(rows, Reader(hash))).error.MissingColumn? ==>
              exists i :: 1 <= i < |rows| && |rows[i]| < 5
  {
    if Collect(Outcomes(rows, Reader(hash))).Failed? {
      var i := FirstRaisingRow(rows, Reader(hash));
      ReaderReadsRows(rows, hash);
      ReadRowCases(rows[i], i + 1, hash);
    }
  }

  /** One more row of the sheet adds its outcome at the end. */
  lemma OutcomesStep(rows: seq<Row>, i: nat, read: (Row, nat) -> RowOutcome)
    requires 1 <= i < |rows|
    ensures Outcomes(rows[..i + 1], read) == Outcomes(rows[..i], read) + [read(rows[i], i + 1)]
  {
    assert rows[..i + 1][..i] == rows[..i];
  }

  /** One more outcome after a successful prefix: a skip changes nothing, an
      accepted row appends its user, a raising row fails with its error. */
  lemma CollectStep(outs: seq<RowOutcome>, o: RowOutcome)
    requires Collect(outs).Done?
    ensures Collect(outs + [o]) ==
              match o
              case Skip => Collect(outs)
              case Accept(u) => Done(Collect(outs).users + [u])
              case Reject(e) => Failed(e)
  {
    assert (outs + [o])[..|outs|] == outs;
  }

  /** One more sheet row after a successful prefix `created`: a skipped row
      changes nothing, an accepted row appends its user and its password
      line, and a raising row decides the whole import. */
  lemma RowStep(rows: seq<Row>, i: nat, read: (Row, nat) -> RowOutcome,
                outs: seq<RowOutcome>, created: seq<NewUser>)
    requires 1 <= i < |rows|
    requires outs == Outcomes(rows[..i], read) && Collect(outs) == Done(created)
    ensures Outcomes(rows[..i + 1], read) == outs + [read(rows[i], i + 1)]
    ensures read(rows[i], i + 1).Skip? ==> Collect(outs + [read(rows[i], i + 1)]) == Done(created)
    ensures read(rows[i], i + 1).Accept? ==>
              var u := read(rows[i], i + 1).user;
              && Collect(outs + [read(rows[i], i + 1)]) == Done(created + [u])
              && CredentialsOf(created + [u]) == CredentialsOf(created) + [Credentials(u.sid, u.name, u.password)]
    ensures read(rows[i], i + 1).Reject? ==> Collect(Outcomes(rows, read)) == Failed(read(rows[i], i + 1).error)
  {
    OutcomesStep(rows, i, read);
    CollectStep(outs, read(rows[i], i + 1));
    match read(rows[i], i + 1)
    case Skip =>
    case Accept(u) =>
      assert (created + [u])[..|created|] == created;
    case Reject(e) =>
      RejectEndsImport(rows, i + 1, read);
  }

  /** Once a row raises, later rows do not matter. */
  lemma {:induction false} CollectFailurePersists(outs: seq<RowOutcome>, k: nat)
    requires k <= |outs| && Collect(outs[..k]).Failed?
    ensures Collect(outs) == Collect(outs[..k])
  {
    if k < |outs| {
      var n := |outs| - 1;
      assert outs[..n][..k] == outs[..k];
      CollectFailurePersists(outs[..n], k);
    } else {
      assert outs[..k] == outs;
    }
  }

  /** The accumulation succeeds exactly when no outcome raises. */
  lemma {:induction false} CollectSucceedsIff(outs: seq<RowOutcome>)
    ensures Collect(outs).Done? <==> forall i :: 0 <= i < |outs| ==> !outs[i].Reject?
  {
    if |outs| > 0 {
      var n := |outs| - 1;
      CollectSucceedsIff(outs[..n]);
      assert forall i :: 0 <= i < n ==> outs[..n][i] == outs[i];
    }
  }

  /** A failed accumulation reports the error of the first raising outcome. */
  lemma {:induction false} CollectReportsFirstError(outs: seq<RowOutcome>)
    requires Collect(outs).Failed?
    ensures exists i :: 0 <= i < |outs| && outs[i] == Reject(Collect(outs).error)
              && forall j :: 0 <= j < i ==> !outs[j].Reject?
  {
    var n := |outs| - 1;
    assert forall i :: 0 <= i < n ==> outs[..n][i] == outs[i];
    if Collect(outs[..n]).Failed? {
      CollectReportsFirstError(outs[..n]);
      var i :| 0 <= i < n && outs[..n][i] == Reject(Collect(outs[..n]).error)
                && forall j :: 0 <= j < i ==> !outs[..n][j].Reject?;
      assert outs[i] == Reject(Collect(outs).error);
    } else {
      CollectSucceedsIff(outs[..n]);
      assert outs[n] == Reject(Collect(outs).error);
    }
  }

  /** The users of the accepted outcomes, front to back; a reference
      definition independent of `Collect`. */
  function AcceptedOf(outs: seq<RowOutcome>): seq<NewUser>
  {
    if |outs| == 0 then []
    else (if outs[0].Accept? then [outs[0].user] else []) + AcceptedOf(outs[1..])
  }

  lemma {:induction false} AcceptedOfAppend(outs: seq<RowOutcome>, o: RowOutcome)
    ensures AcceptedOf(outs + [o]) == AcceptedOf(outs) + (if o.Accept? then [o.user] else [])
  {
    if |outs| > 0 {
      assert (outs + [o])[1..] == outs[1..] + [o];
      AcceptedOfAppend(outs[1..], o);
    }
  }

  /** A successful accumulation holds exactly the accepted users, in order. */
  lemma {:induction false} CollectKeepsOrder(outs: seq<RowOutcome>)
    requires Collect(outs).Done?
    ensures Collect(outs).users == AcceptedOf(outs)
  {
    if |outs| > 0 {
      var n := |outs| - 1;
      CollectKeepsOrder(outs[..n]);
      assert outs == outs[..n] + [outs[n]];
      AcceptedOfAppend(outs[..n], outs[n]);
    }
  }

  /** The outcomes of a sheet succeed exactly when no data row raises. */
  lemma OutcomesSucceedIff(rows: seq<Row>, read: (Row, nat) -> RowOutcome)
    ensures Collect(Outcomes(rows, read)).Done? <==>
              forall i :: 1 <= i < |rows| ==> !read(rows[i], i + 1).Reject?
  {
    var outs := Outcomes(rows, read);
    CollectSucceedsIff(outs);
    if forall i :: 1 <= i < |rows| ==> !read(rows[i], i + 1).Reject? {
      forall j | 0 <= j < |outs|
        ensures !outs[j].Reject?
      {
        OutcomesAt(rows, j + 1, read);
      }
    } else {
      var i :| 1 <= i < |rows| && read(rows[i], i + 1).Reject?;
      OutcomesAt(rows, i, read);
    }
  }

  /** The "only if" half of `OutcomesSucceedIff`. */
  lemma NoRaisingRow(rows: seq<Row>, read: (Row, nat) -> RowOutcome)
    requires Collect(Outcomes(rows, read)).Done?
    ensures forall i :: 1 <= i < |rows| ==> !read(rows[i], i + 1).Reject?
  {
    OutcomesSucceedIff(rows, read);
  }

  /** A failed accumulation of a sheet's outcomes reports the error of the
      first data row that raises; the lemma returns that row. */
  lemma FirstRaisingRow(rows: seq<Row>, read: (Row, nat) -> RowOutcome) returns (i: nat)
    requires Collect(Outcomes(rows, read)).Failed?
    ensures 1 <= i < |rows|
    ensures read(rows[i], i + 1) == Reject(Collect(Outcomes(rows, read)).error)
    ensures forall j :: 1 <= j < i ==> !read(rows[j], j + 1).Reject?
  {
    var outs := Outcomes(rows, read);
    CollectReportsFirstError(outs);
    var k :| 0 <= k < |outs| && outs[k] == Reject(Collect(outs).error)
              && forall j :: 0 <= j < k ==> !outs[j].Reject?;
    i := k + 1;
    OutcomesAt(rows, i, read);
    forall j | 1 <= j < i
      ensures !read(rows[j], j + 1).Reject?
    {
      OutcomesAt(rows, j, read);
    }
  }

  /** The import succeeds exactly when no data row raises. */
  lemma ImportSucceedsIff(rows: seq<Row>, hash: string -> string)
    ensures Import(rows, hash).Done? <==>
              forall i :: 1 <= i < |rows| ==> !ReadRow(rows[i], i + 1, hash).Reject?
  {
    if Import(rows, hash).Done? {
      ImportDoneHasNoRaisingRow(rows, hash);
    } else {
      ImportReportsFirstError(rows, hash);
    }
  }

  /** The "only if" half of `ImportSucceedsIff`. */
  lemma ImportDoneHasNoRaisingRow(rows: seq<Row>, hash: string -> string)
    requires Import(rows, hash).Done?
    ensures forall i :: 1 <= i < |rows| ==> !ReadRow(rows[i], i + 1, hash).Reject?
  {
    NoRaisingRow(rows, Reader(hash));
    ReaderReadsRows(rows, hash);
  }

  /** A failed import reports the error of the first data row that raises. */
  lemma ImportReportsFirstError(rows: seq<Row>, hash: string -> string)
    requires Import(rows, hash).Failed?
    ensures exists i :: 1 <= i < |rows|
              && ReadRow(rows[i], i + 1, hash) == Reject(Import(rows, hash).error)
              && forall j :: 1 <= j < i ==> !ReadRow(rows[j], j + 1, hash).Reject?
  {
    var i := FirstRaisingRow(rows, Reader(hash));
    ReaderReadsRows(rows, hash);
  }

  /** A data row that raises ends the import with the error the
      accumulation up to that row reports. */
  lemma {:induction false} RejectEndsImport(rows: seq<Row>, k: nat, read: (Row, nat) -> RowOutcome)
    requires k <= |rows| && Collect(Outcomes(rows[..k], read)).Failed?
    ensures Collect(Outcomes(rows, read)) == Collect(Outcomes(rows[..k], read))
  {
    OutcomesPrefix(rows, k, read);
    CollectFailurePersists(Outcomes(rows, read), k - 1);
  }

  /** A successful import creates exactly the users of the accepted data
      rows, in row order. */
  lemma ImportKeepsRowOrder(rows: seq<Row>, hash: string -> string)
    requires Import(rows, hash).Done?
    ensures Import(rows, hash).users == AcceptedOf(Outcomes(rows, Reader(hash)))
  {
    CollectKeepsOrder(Outcomes(rows, Reader(hash)));
  }

  /** The header row of the password file. */
  const PasswordHeader: seq<string> := ["ID", "姓名", "密码"]

  /** An entry of the password list. */
  datatype Credentials = Credentials(sid: string, name: string, password: string)

  /** `table` is the password file for `users`: the header, then one
      `[id, name, password]` line per user, in order. */
  predicate ListsPasswords(table: seq<seq<string>>, users: seq<NewUser>)
  {
    && |table| == |users| + 1
    && table[0] == PasswordHeader
    && forall k :: 0 <= k < |users| ==> table[k + 1] == [users[k].sid, users[k].name, users[k].password]
  }

  /** The password list entries of `users`, in order. */
  function CredentialsOf(users: seq<NewUser>): (r: seq<Credentials>)
    ensures |r| == |users|
  {
    if |users| == 0 then []
    else
      var u := users[|users| - 1];
      CredentialsOf(users[..|users| - 1]) + [Credentials(u.sid, u.name, u.password)]
  }

  /** Entry `k` of the password list is that of user `k`. */
  lemma {:induction false} CredentialsOfAt(users: seq<NewUser>, k: nat)
    requires k < |users|
    ensures CredentialsOf(users)[k] == Credentials(users[k].sid, users[k].name, users[k].password)
  {
    var n := |users| - 1;
    if k < n {
      CredentialsOfAt(users[..n], k);
    }
  }

  /** The csv writing loop: the header line, then one line per entry. */
  method WritePasswordCsv(entries: seq<Credentials>) returns (table: seq<seq<string>>)
    ensures |table| == |entries| + 1 && table[0] == PasswordHeader
    ensures forall k :: 0 <= k < |entries| ==>
              table[k + 1] == [entries[k].sid, entries[k].name, entries[k].password]
  {
    table := [PasswordHeader];
    var k := 0;
    while k < |entries|
      invariant 0 <= k <= |entries|
      invariant |table| == k + 1 && table[0] == PasswordHeader
      invariant forall j :: 0 <= j < k ==> table[j + 1] == [entries[j].sid, entries[j].name, entries[j].password]
    {
      table := table + [[entries[k].sid, entries[k].name, entries[k].password]];
      k := k + 1;
    }
  }

  /** What the view answers after a posted sheet. */
  datatype Response = ImportFailed(error: ImportError) | NothingImported | PasswordFile(table: seq<seq<string>>)

  /** The row loop of `import_excel_view`, for the loop body `read`: the
      users of the accepted rows in order, with their password lines, or the
      error of the first raising row. */
  method ReadRows(rows: seq<Row>, read: (Row, nat) -> RowOutcome)
    returns (failure: Option<ImportError>, made: seq<NewUser>, passwords: seq<Credentials>)
    ensures Collect(Outcomes(rows, read)).Failed? ==>
              failure == Some(Collect(Outcomes(rows, read)).error)
    ensures Collect(Outcomes(rows, read)).Done? ==>
              && failure == None
              && made == Collect(Outcomes(rows, read)).users
              && passwords == CredentialsOf(made)
  {
    made, passwords := [], [];
    ghost var outs: seq<RowOutcome> := [];
    var i := 0;
    while i < |rows|
      invariant 0 <= i <= |rows|
      invariant outs == Outcomes(rows[..i], read)
      invariant Collect(outs) == Done(made)
      invariant passwords == CredentialsOf(made)
    {
      if i > 0 {
        var outcome := read(rows[i], i + 1);
        RowStep(rows, i, read, outs, made);
        match outcome {
          case Skip =>
          case Accept(u) =>
            made := made + [u];
            passwords := passwords + [Credentials(u.sid, u.name, u.password)];
          case Reject(e) =>
            return Some(e), [], [];
        }
        outs := outs + [outcome];
      } else {
        assert Outcomes(rows[..1], read) == [];
      }
      i := i + 1;
    }
    assert rows[..|rows|] == rows;
    failure := None;
  }

  /** The user tables the import writes to. */
  class Directory {
    var users: seq<NewUser>

    constructor ()
      ensures users == []
    {
      users := [];
    }

    /** The row loop of `import_excel_view` inside its atomic block: the
        users of the accepted rows are created in order and listed with
        their passwords; a raising row rolls every creation back. */
    method ImportRows(rows: seq<Row>, read: (Row, nat) -> RowOutcome)
      returns (failure: Option<ImportError>, passwords: seq<Credentials>)
      modifies this
      ensures Collect(Outcomes(rows, read)).Failed? ==>
                failure == Some(Collect(Outcomes(rows, read)).error) && users == old(users)
      ensures Collect(Outcomes(rows, read)).Done? ==>
                && failure == None
                && users == old(users) + Collect(Outcomes(rows, read)).users
                && passwords == CredentialsOf(Collect(Outcomes(rows, read)).users)
    {
      var made;
      failure, made, passwords := ReadRows(rows, read);
      if failure == None {
        users := users + made;  // the atomic block commits
      }
    }

    /** `import_excel_view` on a valid form: the row loop, then the password
        file when some user was created. */
    method ImportExcel(rows: seq<Row>, hash: string -> string) returns (response: Response)
      modifies this
      ensures Import(rows, hash).Failed? ==>
                users == old(users) && response == ImportFailed(Import(rows, hash).error)
      ensures Import(rows, hash).Done? ==>
                && users == old(users) + Import(rows, hash).users
                && (Import(rows, hash).users == [] <==> response == NothingImported)
                && (Import(rows, hash).users != [] ==>
                      response.PasswordFile? && ListsPasswords(response.table, Import(rows, hash).users))
    {
      var failure, passwords := ImportRows(rows, Reader(hash));
      if failure.Some? {
        return ImportFailed(failure.value);
      }
      if |passwords| > 0 {
        var table := WritePasswordCsv(passwords);
        response := PasswordFile(table);
        ghost var created := Import(rows, hash).users;
        forall k | 0 <= k < |created|
          ensures table[k + 1] == [created[k].sid, created[k].name, created[k].password]
        {
          CredentialsOfAt(created, k);
        }
      } else {
        response := NothingImported;
      }
    }
  }

  /** An entry of a fieldset: a field alone, or a field with its detail. */
  datatype FieldEntry = Single(option: string) | Pair(option: string, detail: string)

  /** `_show_by_option`: on the add form (no person yet) or when the person's
      flag `option` is set, the flag is shown with its detail field; otherwise
      only the flag.  A person is given by its boolean attributes. */
  function ShowByOption(person: Option<map<string, bool>>, option: string, detail: string): (r: FieldEntry)
    requires person.Some? ==> option in person.value
    ensures r.option == option
    ensures r.Pair? <==> person.None? || person.value[option]
    ensures r.Pair? ==> r.detail == detail
  {
    if person.None? || person.value[option] then Pair(option, detail) else Single(option)
  }
}
