/** The two backends side by side: they accept and refuse the same
    submissions and store the same values; over the listed rows their
    statistics agree whenever every attendance is legal (`StatsAgree`), and
    over the whole table they agree when every name is non-empty too
    (`StatsAgreeOnNamedRows`); on trimmed messages their
    guestbooks agree; and on ids that are unique their deletions agree. The
    places where they differ are stated too. */
module Agreement {
  import opened Text
  import opened Rsvp
  import opened Sheet
  import opened SheetFacts
  import opened Api

  /** Both submit paths refuse the same submissions with the same error,
      and neither stores anything then. */
  lemma SubmitRefusesAlike(sheet: seq<Row>, data: Submission, createdAt: string, run: Option<int>)
    ensures var a := AddRsvp(sheet, data, createdAt);
      var e := Submit(data, run);
      && (a.response.Failed? <==> e.reply.status == 400)
      && (a.response.Failed? ==> e.reply.body == a.response && a.sheet == sheet && e.insert.None?)
  {
  }

  /** On success the row appended to the sheet and the values bound to the
      INSERT are the same. */
  lemma SubmitStoresAlike(sheet: seq<Row>, data: Submission, createdAt: string, run: Option<int>)
    requires Admissible(data)
    ensures var e := Submit(data, run);
      && e.insert.Some?
      && var row := AddRsvp(sheet, data, createdAt).sheet[|sheet|];
         var v := e.insert.value;
         && row.name == v.name
         && row.email == v.email
         && row.attendance == v.attendance
         && row.guests == v.guests
         && row.dietary == v.dietary
         && row.message == v.message
  {
  }

  /** The guest count of each stored row is the same function of the
      attendance and the parsed count in both variants. */
  lemma GuestCountAgrees(sheet: seq<Row>, data: Submission, createdAt: string, run: Option<int>)
    requires Admissible(data)
    ensures AddRsvp(sheet, data, createdAt).sheet[|sheet|].guests == Submit(data, run).insert.value.guests
    ensures data.attendance.value == RegretfullyDecline ==> Submit(data, run).insert.value.guests == 0
    ensures data.attendance.value == JoyfullyAccept && data.guests.Some? && data.guests.value != 0 ==>
              Submit(data, run).insert.value.guests == data.guests.value
    ensures data.attendance.value == JoyfullyAccept && (data.guests.None? || data.guests.value == 0) ==>
              Submit(data, run).insert.value.guests == 1
  {
    SubmitStoresAlike(sheet, data, createdAt, run);
  }

  /** When every name is non-empty the listing is the whole sheet, newest
      first. */
  lemma {:induction false} VisibleAllNamed(sheet: seq<Row>)
    requires forall i :: 0 <= i < |sheet| ==> sheet[i].name != ""
    ensures Visible(sheet) == Reverse(sheet)
    decreases |sheet|
  {
    if |sheet| > 0 {
      VisibleAllNamed(sheet[1..]);
    }
  }

  /** Over rows that all hold a legal attendance, the loop's running
      totals and the SQL-style aggregate agree: a non-accepting row is then
      a declining one. */
  lemma {:induction false} TallyIsFold(rows: seq<Row>)
    requires forall i :: 0 <= i < |rows| ==> LegalAttendance(rows[i].attendance)
    ensures StatsFold(rows) == Tally(rows)
    decreases |rows|
  {
    if |rows| > 0 {
      var init := rows[..|rows| - 1];
      assert forall i :: 0 <= i < |init| ==> init[i] == rows[i];
      TallyIsFold(init);
      assert LegalAttendance(rows[|rows| - 1].attendance);
    }
  }

  /** A named first row is listed last, after the listing of the rest. */
  lemma ListedStep(sheet: seq<Row>)
    requires |sheet| > 0 && sheet[0].name != ""
    ensures Visible(sheet) == Visible(sheet[1..]) + [sheet[0]]
  {
  }

  /** When every name is non-empty, every row is listed, and the listed
      rows hold each attendance as often as the sheet does. */
  lemma {:induction false} NamedRowsCountAlike(sheet: seq<Row>, a: string)
    requires forall i :: 0 <= i < |sheet| ==> sheet[i].name != ""
    ensures |Visible(sheet)| == |sheet|
    ensures CountAttendance(Visible(sheet), a) == CountAttendance(sheet, a)
    decreases |sheet|
  {
    if |sheet| > 0 {
      var tail := sheet[1..];
      assert forall i :: 0 <= i < |tail| ==> tail[i] == sheet[i + 1];
      NamedRowsCountAlike(tail, a);
      ListedStep(sheet);
      CountAttendanceAppend(Visible(tail), sheet[0], a);
      CountAttendanceFront(sheet, a);
    }
  }

  /** When every name is non-empty, the listed rows accept as many guests
      as the sheet does. */
  lemma {:induction false} NamedRowsGuestsAlike(sheet: seq<Row>)
    requires forall i :: 0 <= i < |sheet| ==> sheet[i].name != ""
    ensures AcceptedGuests(Visible(sheet)) == AcceptedGuests(sheet)
    decreases |sheet|
  {
    if |sheet| > 0 {
      var tail := sheet[1..];
      assert forall i :: 0 <= i < |tail| ==> tail[i] == sheet[i + 1];
      NamedRowsGuestsAlike(tail);
      ListedStep(sheet);
      AcceptedGuestsAppend(Visible(tail), sheet[0]);
      AcceptedGuestsFront(sheet);
    }
  }

  /** With every attendance one of the two legal values, the SQL-style
      aggregate over the listed rows equals the statistics `getRsvps`
      reports. */
  lemma {:induction false} StatsAgree(sheet: seq<Row>)
    requires forall i :: 0 <= i < |sheet| ==> LegalAttendance(sheet[i].attendance)
    ensures StatsFold(Visible(sheet)) == GetRsvps(sheet).stats
  {
    var v := Visible(sheet);
    VisibleMembers(sheet);
    forall i | 0 <= i < |v|
      ensures LegalAttendance(v[i].attendance)
    {
      assert v[i] in sheet;
    }
    TallyIsFold(v);
    if |sheet| == 0 {
      assert v == [];
    } else {
      assert GetRsvps(sheet).stats == Tally(v);
    }
  }

  /** When every name is non-empty, the listing's total and accepted count
      are the table's. */
  lemma {:induction false} NamedRowsCountsAgree(sheet: seq<Row>)
    requires forall i :: 0 <= i < |sheet| ==> sheet[i].name != ""
    ensures StatsFold(sheet).total == GetRsvps(sheet).stats.total
    ensures StatsFold(sheet).accepted == GetRsvps(sheet).stats.accepted
  {
    NamedRowsCountAlike(sheet, JoyfullyAccept);
  }

  /** When every name is non-empty, the listing's guest total is the
      table's. */
  lemma {:induction false} NamedRowsGuestTotalAgrees(sheet: seq<Row>)
    requires forall i :: 0 <= i < |sheet| ==> sheet[i].name != ""
    ensures StatsFold(sheet).totalGuests == GetRsvps(sheet).stats.totalGuests
  {
    NamedRowsGuestsAlike(sheet);
  }

  /** If moreover every name is non-empty, the aggregate over the whole
      table equals the statistics `getRsvps` reports. */
  lemma {:induction false} StatsAgreeOnNamedRows(sheet: seq<Row>)
    requires forall i :: 0 <= i < |sheet| ==> LegalAttendance(sheet[i].attendance)
    requires forall i :: 0 <= i < |sheet| ==> sheet[i].name != ""
    ensures StatsFold(sheet) == GetRsvps(sheet).stats
  {
    NamedRowsCountsAgree(sheet);
    NamedRowsGuestTotalAgrees(sheet);
    LegalRowsSplit(sheet);
  }

  /** A stored row with an empty name (a white-space-only name trims to
      one) counts in the SQL aggregate but not in `getRsvps`. */
  lemma BlankNameCountsOnlyInQuery(row: Row)
    requires row.name == "" && LegalAttendance(row.attendance)
    ensures StatsFold([row]).total == 1
    ensures GetRsvps([row]).stats.total == 0
  {
    assert [row][..0] == [];
  }

  /** On an empty table the aggregate as written reports NULL for the three
      sums where `getRsvps` reports zeros. */
  lemma EmptyStatsDiffer()
    ensures StatsQuery([]).accepted.None? && StatsQuery([]).totalGuests.None?
    ensures GetRsvps([]).stats == Stats(0, 0, 0, 0)
    ensures StatsFold([]) == GetRsvps([]).stats
  {
  }

  /** On a non-empty table the aggregate as written carries the same
      numbers as the aggregate with zero-defaulted sums. */
  lemma StatsQueryAgreesWhenNonEmpty(rows: seq<Row>)
    requires |rows| > 0
    ensures var q := StatsQuery(rows);
      var s := StatsFold(rows);
      q == SqlStats(s.total, Some(s.accepted), Some(s.declined), Some(s.totalGuests))
  {
  }

  /** The comments query distributes over concatenation. */
  lemma {:induction false} CommentsQueryAppend(a: seq<Row>, b: seq<Row>)
    ensures CommentsQuery(a + b) == CommentsQuery(a) + CommentsQuery(b)
    decreases |a|
  {
    if |a| == 0 {
      assert a + b == b;
    } else {
      assert (a + b)[1..] == a[1..] + b;
      CommentsQueryAppend(a[1..], b);
    }
  }

  /** When every stored message is already trimmed (as both submit paths
      store them), filtering on "not empty" over the rows newest first gives
      exactly the guestbook `getComments` builds. */
  lemma {:induction false} CommentsAgree(sheet: seq<Row>)
    requires forall i :: 0 <= i < |sheet| ==> Trimmed(sheet[i].message)
    ensures CommentsQuery(Reverse(sheet)) == GetComments(sheet).comments
    decreases |sheet|
  {
    if |sheet| > 0 {
      var row := sheet[0];
      CommentsAgree(sheet[1..]);
      CommentsQueryAppend(Reverse(sheet[1..]), [row]);
      assert [row][1..] == [];
      assert Trim(row.message) == row.message;
    }
  }

  /** Removing all matches of a row that carries a unique id removes just
      that row. */
  lemma {:induction false} DeleteWhereUnique(table: seq<Row>, id: int, i: int)
    requires UniqueIds(table) && 0 <= i < |table| && table[i].id == Some(id)
    ensures DeleteWhere(table, id).table == table[..i] + table[i + 1..]
    decreases |table|
  {
    if i == 0 {
      assert forall j :: 0 <= j < |table[1..]| ==> table[1..][j].id != Some(id) by {
        forall j | 0 <= j < |table[1..]|
          ensures table[1..][j].id != Some(id)
        {
          assert table[1..][j] == table[j + 1];
        }
      }
    } else {
      var tail := table[1..];
      assert UniqueIds(tail) by {
        forall a, b | 0 <= a < b < |tail| && tail[a].id.Some?
          ensures tail[a].id != tail[b].id
        {
          assert tail[a] == table[a + 1] && tail[b] == table[b + 1];
        }
      }
      assert tail[i - 1] == table[i];
      DeleteWhereUnique(tail, id, i - 1);
      assert table[0].id != Some(id);
      assert table[..i] + table[i + 1..] == [table[0]] + (tail[..i - 1] + tail[i..]);
    }
  }

  /** When ids are unique, deleting by id on the sheet and in the table
      leave the same rows and give the same answer: not found exactly when
      the SQL delete changes nothing. */
  lemma DeleteAgrees(sheet: seq<Row>, id: int)
    requires UniqueIds(sheet)
    ensures var s := DeleteRsvp(sheet, Some(id));
      var e := DeleteRoute(sheet, id);
      && s.sheet == e.table
      && s.response == e.reply.body
      && (s.response == Failed(NotFound) <==> e.reply.status == 404)
  {
    var s := DeleteRsvp(sheet, Some(id));
    var e := DeleteRoute(sheet, id);
    if e.reply.status != 404 {
      var i :| 0 <= i < |sheet| && sheet[i].id == Some(id)
               && (forall j :: 0 <= j < i ==> sheet[j].id != Some(id))
               && s.sheet == sheet[..i] + sheet[i + 1..];
      DeleteWhereUnique(sheet, id, i);
    }
  }

  /** Every sheet built by the service's own operations is one on which the
      two backends agree: statistics over the listed rows, the guestbook,
      and deletion. */
  lemma ConsistentSheetsAgree(sheet: seq<Row>, id: int)
    requires Consistent(sheet)
    ensures StatsFold(Visible(sheet)) == GetRsvps(sheet).stats
    ensures CommentsQuery(Reverse(sheet)) == GetComments(sheet).comments
    ensures DeleteRsvp(sheet, Some(id)).sheet == DeleteRoute(sheet, id).table
  {
    StatsAgree(sheet);
    CommentsAgree(sheet);
    DeleteAgrees(sheet, id);
  }
}
