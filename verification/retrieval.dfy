/** Reading the device's contacts: one query for the contact rows, one query
    per contact for its phone rows, and the list of contacts built from them. */
module ContactRetrieval {
  import opened Cursors
  import opened Contacts

  /** A row of the contacts query: the contact's id, display name and the
      provider's has-phone-number flag. */
  datatype ContactRow = ContactRow(id: int, displayName: string, hasPhoneNumber: int)

  /** A row of a per-contact phone query: the number as stored. */
  datatype PhoneRow = PhoneRow(number: string)

  /** A row takes part only when its has-phone-number flag is positive. */
  predicate HasPhones(row: ContactRow)
  {
    row.hasPhoneNumber > 0
  }

  /** The normalised numbers of some phone rows, in row order. */
  function Normalized(phoneRows: seq<PhoneRow>, normalize: string -> string): seq<string>
  {
    if phoneRows == [] then []
    else Normalized(phoneRows[..|phoneRows| - 1], normalize) + [normalize(phoneRows[|phoneRows| - 1].number)]
  }

  /** The contact built from a qualifying row: its name, and the normalised
      numbers of the phone rows the provider returns for its id. */
  function ContactOf(row: ContactRow, phonesOf: int -> seq<PhoneRow>, normalize: string -> string): Contact
  {
    Contact(row.displayName, Normalized(phonesOf(row.id), normalize))
  }

  /** The contact list produced from some contact rows. */
  function Aggregate(rows: seq<ContactRow>, phonesOf: int -> seq<PhoneRow>, normalize: string -> string): seq<Contact>
  {
    if rows == [] then []
    else
      var last := rows[|rows| - 1];
      Aggregate(rows[..|rows| - 1], phonesOf, normalize)
        + (if HasPhones(last) then [ContactOf(last, phonesOf, normalize)] else [])
  }

  /** The positions of the rows that have phones, in increasing order: exactly
      the rows that take part, each once. */
  function QualifyingIndices(rows: seq<ContactRow>): (idx: seq<nat>)
    ensures |idx| <= |rows|
    ensures forall k :: 0 <= k < |idx| ==> idx[k] < |rows| && HasPhones(rows[idx[k]])
    ensures forall k, m :: 0 <= k < m < |idx| ==> idx[k] < idx[m]
    ensures forall i :: 0 <= i < |rows| && HasPhones(rows[i]) ==> i in idx
  {
    if rows == [] then []
    else
      var n := |rows| - 1;
      var front := QualifyingIndices(rows[..n]);
      assert forall i :: 0 <= i < n ==> rows[..n][i] == rows[i];
      front + (if HasPhones(rows[n]) then [n] else [])
  }

  /** The ids whose phone rows are queried, in the order the queries run. */
  function QueriedIds(rows: seq<ContactRow>): seq<int>
  {
    if rows == [] then []
    else
      var last := rows[|rows| - 1];
      QueriedIds(rows[..|rows| - 1]) + if HasPhones(last) then [last.id] else []
  }

  // ---------------------------------------------------------------------------
  // Properties of the contact list

  /** Each phone row contributes its normalised number at its own position:
      nothing dropped, nothing merged, duplicates kept. */
  lemma {:induction false} NormalizedRows(phoneRows: seq<PhoneRow>, normalize: string -> string)
    ensures |Normalized(phoneRows, normalize)| == |phoneRows|
    ensures forall k :: 0 <= k < |phoneRows| ==>
              Normalized(phoneRows, normalize)[k] == normalize(phoneRows[k].number)
  {
    if phoneRows != [] {
      var n := |phoneRows| - 1;
      NormalizedRows(phoneRows[..n], normalize);
    }
  }

  /** A produced contact carries the row's display name, and one normalised
      number per phone row of its id, in the phone rows' order. */
  lemma ContactPhones(row: ContactRow, phonesOf: int -> seq<PhoneRow>, normalize: string -> string)
    ensures ContactOf(row, phonesOf, normalize).name == row.displayName
    ensures |ContactOf(row, phonesOf, normalize).phones| == |phonesOf(row.id)|
    ensures forall k :: 0 <= k < |phonesOf(row.id)| ==>
              ContactOf(row, phonesOf, normalize).phones[k] == normalize(phonesOf(row.id)[k].number)
  {
    NormalizedRows(phonesOf(row.id), normalize);
  }

  /** The k-th contact of the list is built from the k-th row that has phones:
      the list maps the qualifying rows one to one, in their order. */
  lemma {:induction false} AggregateFollowsRows(rows: seq<ContactRow>, phonesOf: int -> seq<PhoneRow>, normalize: string -> string)
    ensures |Aggregate(rows, phonesOf, normalize)| == |QualifyingIndices(rows)|
    ensures forall k :: 0 <= k < |Aggregate(rows, phonesOf, normalize)| ==>
              Aggregate(rows, phonesOf, normalize)[k]
                == ContactOf(rows[QualifyingIndices(rows)[k]], phonesOf, normalize)
  {
    if rows != [] {
      var n := |rows| - 1;
      AggregateFollowsRows(rows[..n], phonesOf, normalize);
      var front := QualifyingIndices(rows[..n]);
      var idx := QualifyingIndices(rows);
      var before := Aggregate(rows[..n], phonesOf, normalize);
      var all := Aggregate(rows, phonesOf, normalize);
      assert idx == front + (if HasPhones(rows[n]) then [n] else []);
      assert all == before + (if HasPhones(rows[n]) then [ContactOf(rows[n], phonesOf, normalize)] else []);
      forall k | 0 <= k < |all|
        ensures all[k] == ContactOf(rows[idx[k]], phonesOf, normalize)
      {
        if k < |before| {
          assert all[k] == before[k];
          assert idx[k] == front[k];
          assert rows[..n][front[k]] == rows[front[k]];
        }
      }
    }
  }

  /** The k-th phone query is for the id of the k-th row that has phones,
      and the k-th contact holds the normalised numbers of that query. */
  lemma {:induction false} QueriedIdsFollowRows(rows: seq<ContactRow>, phonesOf: int -> seq<PhoneRow>, normalize: string -> string)
    ensures |QueriedIds(rows)| == |QualifyingIndices(rows)| == |Aggregate(rows, phonesOf, normalize)|
    ensures forall k :: 0 <= k < |QueriedIds(rows)| ==>
              QueriedIds(rows)[k] == rows[QualifyingIndices(rows)[k]].id
              && Aggregate(rows, phonesOf, normalize)[k].phones == Normalized(phonesOf(QueriedIds(rows)[k]), normalize)
  {
    AggregateFollowsRows(rows, phonesOf, normalize);
    if rows != [] {
      var n := |rows| - 1;
      QueriedIdsFollowRows(rows[..n], phonesOf, normalize);
      var front := QualifyingIndices(rows[..n]);
      var idx := QualifyingIndices(rows);
      var ids := QueriedIds(rows);
      assert idx == front + (if HasPhones(rows[n]) then [n] else []);
      assert ids == QueriedIds(rows[..n]) + (if HasPhones(rows[n]) then [rows[n].id] else []);
      forall k | 0 <= k < |ids|
        ensures ids[k] == rows[idx[k]].id
      {
        if k < |front| {
          assert ids[k] == QueriedIds(rows[..n])[k];
          assert idx[k] == front[k];
          assert rows[..n][front[k]] == rows[front[k]];
        }
      }
    }
  }

  /** No row whose has-phone-number flag is zero or negative yields a contact,
      every row whose flag is positive yields exactly one, and the list is
      never longer than the contact rows. */
  lemma AggregateSkipsRowsWithoutPhones(rows: seq<ContactRow>, phonesOf: int -> seq<PhoneRow>, normalize: string -> string)
    ensures |Aggregate(rows, phonesOf, normalize)| <= |rows|
    ensures forall i :: 0 <= i < |rows| ==> (i in QualifyingIndices(rows) <==> HasPhones(rows[i]))
  {
    AggregateFollowsRows(rows, phonesOf, normalize);
  }

  /** A row that has phones yields its contact in the list, even when its
      phone query comes back empty: then the contact has no numbers. */
  lemma QualifyingRowKept(rows: seq<ContactRow>, i: nat, phonesOf: int -> seq<PhoneRow>, normalize: string -> string)
    requires i < |rows| && HasPhones(rows[i])
    ensures ContactOf(rows[i], phonesOf, normalize) in Aggregate(rows, phonesOf, normalize)
    ensures phonesOf(rows[i].id) == [] ==> Contact(rows[i].displayName, []) in Aggregate(rows, phonesOf, normalize)
  {
    AggregateFollowsRows(rows, phonesOf, normalize);
    var idx := QualifyingIndices(rows);
    var k :| 0 <= k < |idx| && idx[k] == i;
    assert Aggregate(rows, phonesOf, normalize)[k] == ContactOf(rows[i], phonesOf, normalize);
  }

  // ---------------------------------------------------------------------------
  // Releasing the result sets

  /** What happens to the result sets, in order: a contact row is visited, a
      phone result set is opened or closed for a row, the contact result set
      is closed. */
  datatype CursorEvent =
    | RowVisited(row: nat)
    | PhonesOpened(row: nat)
    | PhonesClosed(row: nat)
    | ContactsClosed

  /** The events of one contact row. */
  function RowEvents(rows: seq<ContactRow>, i: nat): seq<CursorEvent>
    requires i < |rows|
  {
    [RowVisited(i)] + if HasPhones(rows[i]) then [PhonesOpened(i), PhonesClosed(i)] else []
  }

  /** The events of the first n contact rows. */
  function VisitTrace(rows: seq<ContactRow>, n: nat): seq<CursorEvent>
    requires n <= |rows|
  {
    if n == 0 then [] else VisitTrace(rows, n - 1) + RowEvents(rows, n - 1)
  }

  /** The events of a whole retrieval. */
  function ExpectedTrace(rows: seq<ContactRow>): seq<CursorEvent>
  {
    VisitTrace(rows, |rows|) + [ContactsClosed]
  }

  /** Every event is about one of the first n rows. */
  predicate EventsWithin(t: seq<CursorEvent>, n: nat)
  {
    forall p :: 0 <= p < |t| ==> !t[p].ContactsClosed? && t[p].row < n
  }

  /** Rows are visited in increasing order, each at most once. */
  predicate VisitsInOrder(t: seq<CursorEvent>)
  {
    forall p, q :: 0 <= p < q < |t| && t[p].RowVisited? && t[q].RowVisited? ==> t[p].row < t[q].row
  }

  /** Opening a phone result set is followed at once by closing it. */
  predicate ClosesAtOnce(t: seq<CursorEvent>)
  {
    forall p :: 0 <= p < |t| && t[p].PhonesOpened? ==> p + 1 < |t| && t[p + 1] == PhonesClosed(t[p].row)
  }

  /** A phone result set is opened only for a row that has phones. */
  predicate OpensOnlyWithPhones(t: seq<CursorEvent>, rows: seq<ContactRow>)
  {
    forall p :: 0 <= p < |t| && t[p].PhonesOpened? ==> t[p].row < |rows| && HasPhones(rows[t[p].row])
  }

  /** Each of the first n rows is visited, and a phone result set is opened
      for each of them that has phones. */
  predicate CoversRows(t: seq<CursorEvent>, rows: seq<ContactRow>, n: nat)
    requires n <= |rows|
  {
    forall i :: 0 <= i < n ==> RowVisited(i) in t && (HasPhones(rows[i]) ==> PhonesOpened(i) in t)
  }

  lemma {:induction false} VisitTraceRows(rows: seq<ContactRow>, n: nat)
    requires n <= |rows|
    ensures EventsWithin(VisitTrace(rows, n), n)
    ensures VisitsInOrder(VisitTrace(rows, n))
  {
    if n > 0 {
      VisitTraceRows(rows, n - 1);
      var front := VisitTrace(rows, n - 1);
      var e := RowEvents(rows, n - 1);
      var t := front + e;
      assert forall p :: 0 <= p < |e| ==> !e[p].ContactsClosed? && e[p].row == n - 1;
      forall p | 0 <= p < |t|
        ensures !t[p].ContactsClosed? && t[p].row < n
      {
        if p >= |front| {
          assert t[p] == e[p - |front|];
        } else {
          assert t[p] == front[p];
        }
      }
      forall p, q | 0 <= p < q < |t| && t[p].RowVisited? && t[q].RowVisited?
        ensures t[p].row < t[q].row
      {
        if q >= |front| {
          assert t[q] == e[q - |front|];
          assert q == |front|;
          assert t[p] == front[p];
        } else {
          assert t[p] == front[p] && t[q] == front[q];
        }
      }
      assert VisitTrace(rows, n) == t;
    }
  }

  lemma {:induction false} VisitTraceCloses(rows: seq<ContactRow>, n: nat)
    requires n <= |rows|
    ensures ClosesAtOnce(VisitTrace(rows, n))
    ensures OpensOnlyWithPhones(VisitTrace(rows, n), rows)
  {
    if n > 0 {
      VisitTraceCloses(rows, n - 1);
      var front := VisitTrace(rows, n - 1);
      var e := RowEvents(rows, n - 1);
      var t := front + e;
      forall p | 0 <= p < |t| && t[p].PhonesOpened?
        ensures p + 1 < |t| && t[p + 1] == PhonesClosed(t[p].row)
        ensures t[p].row < |rows| && HasPhones(rows[t[p].row])
      {
        if p < |front| {
          assert t[p] == front[p] && t[p + 1] == front[p + 1];
        } else {
          assert t[p] == e[p - |front|];
          assert p == |front| + 1;
        }
      }
      assert VisitTrace(rows, n) == t;
    }
  }

  lemma {:induction false} VisitTraceCovers(rows: seq<ContactRow>, n: nat)
    requires n <= |rows|
    ensures CoversRows(VisitTrace(rows, n), rows, n)
  {
    if n > 0 {
      VisitTraceCovers(rows, n - 1);
      var front := VisitTrace(rows, n - 1);
      var e := RowEvents(rows, n - 1);
      var t := front + e;
      forall i | 0 <= i < n
        ensures RowVisited(i) in t
        ensures HasPhones(rows[i]) ==> PhonesOpened(i) in t
      {
        if i < n - 1 {
          assert RowVisited(i) in front;
          if HasPhones(rows[i]) {
            assert PhonesOpened(i) in front;
          }
        } else {
          assert t[|front|] == RowVisited(i);
          if HasPhones(rows[i]) {
            assert t[|front| + 1] == PhonesOpened(i);
          }
        }
      }
      assert VisitTrace(rows, n) == t;
    }
  }

  /** Between opening a phone result set and visiting any later contact row,
      that phone result set is closed. */
  predicate ClosedBeforeNextVisit(t: seq<CursorEvent>)
  {
    forall p, q :: 0 <= p < q < |t| && t[p].PhonesOpened? && t[q].RowVisited? ==>
      p + 1 < q && t[p + 1] == PhonesClosed(t[p].row)
  }

  /** A phone result set, once opened, is closed straight away: the next event
      is its closing, so any later contact row is visited only after that. */
  lemma PhonesClosedBeforeNextRow(rows: seq<ContactRow>)
    ensures ClosesAtOnce(ExpectedTrace(rows))
    ensures ClosedBeforeNextVisit(ExpectedTrace(rows))
  {
    VisitTraceCloses(rows, |rows|);
    var t := ExpectedTrace(rows);
    var v := VisitTrace(rows, |rows|);
    forall p | 0 <= p < |t| && t[p].PhonesOpened?
      ensures p + 1 < |t| && t[p + 1] == PhonesClosed(t[p].row)
    {
      assert p < |v| && t[p] == v[p];
      assert t[p + 1] == v[p + 1];
    }
  }

  /** Every contact row is visited, once and in order, and no event names a
      row beyond the result set. */
  lemma RowsVisitedInOrder(rows: seq<ContactRow>)
    ensures VisitsInOrder(ExpectedTrace(rows))
    ensures forall i :: 0 <= i < |rows| ==> RowVisited(i) in ExpectedTrace(rows)
    ensures forall p :: 0 <= p < |ExpectedTrace(rows)| && !ExpectedTrace(rows)[p].ContactsClosed? ==>
              ExpectedTrace(rows)[p].row < |rows|
  {
    VisitTraceRows(rows, |rows|);
    VisitTraceCovers(rows, |rows|);
    var t := ExpectedTrace(rows);
    var v := VisitTrace(rows, |rows|);
    assert forall p :: 0 <= p < |v| ==> t[p] == v[p];
    forall p, q | 0 <= p < q < |t| && t[p].RowVisited? && t[q].RowVisited?
      ensures t[p].row < t[q].row
    {
      assert q < |v|;
      assert t[p] == v[p] && t[q] == v[q];
    }
    forall i | 0 <= i < |rows|
      ensures RowVisited(i) in t
    {
      var p :| 0 <= p < |v| && v[p] == RowVisited(i);
      assert t[p] == RowVisited(i);
    }
  }

  /** A phone result set is opened for a row exactly when the row has phones. */
  lemma PhonesOpenedExactlyForRowsWithPhones(rows: seq<ContactRow>)
    ensures forall i :: 0 <= i < |rows| ==> (PhonesOpened(i) in ExpectedTrace(rows) <==> HasPhones(rows[i]))
  {
    VisitTraceCloses(rows, |rows|);
    VisitTraceCovers(rows, |rows|);
    var t := ExpectedTrace(rows);
    var v := VisitTrace(rows, |rows|);
    forall i | 0 <= i < |rows|
      ensures PhonesOpened(i) in t <==> HasPhones(rows[i])
    {
      if HasPhones(rows[i]) {
        var r :| 0 <= r < |v| && v[r] == PhonesOpened(i);
        assert t[r] == PhonesOpened(i);
      }
      if PhonesOpened(i) in t {
        var r :| 0 <= r < |t| && t[r] == PhonesOpened(i);
        assert r < |v| && v[r] == PhonesOpened(i);
      }
    }
  }

  /** The contact result set is closed once, after every other event. */
  lemma ContactsClosedLast(rows: seq<ContactRow>)
    ensures ExpectedTrace(rows)[|ExpectedTrace(rows)| - 1] == ContactsClosed
    ensures forall p :: 0 <= p < |ExpectedTrace(rows)| - 1 ==> ExpectedTrace(rows)[p] != ContactsClosed
  {
    VisitTraceRows(rows, |rows|);
    var t := ExpectedTrace(rows);
    var v := VisitTrace(rows, |rows|);
    assert forall p :: 0 <= p < |v| ==> t[p] == v[p];
  }

  // ---------------------------------------------------------------------------
  // The retrieval loops

  /** Walks a contact's phone result set from its first row, appending the
      normalised number of every row. */
  method ReadPhoneNumbers(phoneCursor: Cursor<PhoneRow>, normalize: string -> string)
    returns (phoneNumbers: seq<string>)
    requires !phoneCursor.closed
    modifies phoneCursor`pos
    ensures phoneNumbers == Normalized(phoneCursor.rows, normalize)
    ensures phoneCursor.pos == |phoneCursor.rows|
  {
    var phoneRows := phoneCursor.rows;
    phoneNumbers := [];
    var more := phoneCursor.MoveToFirst();
    while more
      invariant 0 <= phoneCursor.pos <= |phoneRows| && phoneCursor.Valid()
      invariant more <==> phoneCursor.pos < |phoneRows|
      invariant phoneNumbers == Normalized(phoneRows[..phoneCursor.pos], normalize)
      decreases |phoneRows| - phoneCursor.pos
    {
      var i := phoneCursor.pos;
      assert phoneRows[..i + 1][..i] == phoneRows[..i];
      phoneNumbers := phoneNumbers + [normalize(phoneCursor.Row().number)];
      more := phoneCursor.MoveToNext();
    }
    assert phoneRows[..|phoneRows|] == phoneRows;
  }

  /** Taking one more contact row extends the list and the queried ids by
      that row alone. */
  lemma PrefixStep(rows: seq<ContactRow>, i: nat, phonesOf: int -> seq<PhoneRow>, normalize: string -> string)
    requires i < |rows|
    ensures QueriedIds(rows[..i + 1]) == QueriedIds(rows[..i]) + if HasPhones(rows[i]) then [rows[i].id] else []
    ensures Aggregate(rows[..i + 1], phonesOf, normalize)
              == Aggregate(rows[..i], phonesOf, normalize)
                 + if HasPhones(rows[i]) then [ContactOf(rows[i], phonesOf, normalize)] else []
  {
    assert rows[..i + 1][..i] == rows[..i];
  }

  /** The work for one row that has phones: query its phone rows, collect
      their normalised numbers, release the phone result set, and build the
      contact. The method changes no object that existed before the call, so
      the phone result set it opens is already closed when it returns, before
      the caller moves to the next contact row. */
  method ContactForRow(row: ContactRow, phonesOf: int -> seq<PhoneRow>, normalize: string -> string)
    returns (contact: Contact, ghost phoneCursor: Cursor<PhoneRow>)
    ensures contact == ContactOf(row, phonesOf, normalize)
    ensures fresh(phoneCursor) && phoneCursor.closed
    ensures phoneCursor.rows == phonesOf(row.id)
  {
    var cursor := new Cursor(phonesOf(row.id));
    var phoneNumbers := ReadPhoneNumbers(cursor, normalize);
    if !cursor.closed {
      cursor.Close();
    }
    contact := Contact(row.displayName, phoneNumbers);
    phoneCursor := cursor;
  }

  /** Builds the contact list from an open contact result set: every row whose
      has-phone-number flag is positive gets a contact with the normalised
      numbers of its phone query; each phone result set is closed before the
      next row, and the contact result set is closed at the end. Also returns,
      as ghost values, the log of cursor events and the phone result sets, the
      k-th of which is the query for the k-th row that has phones. */
  method RetrieveContacts(contactCursor: Cursor<ContactRow>, phonesOf: int -> seq<PhoneRow>, normalize: string -> string)
    returns (contacts: seq<Contact>, ghost trace: seq<CursorEvent>, ghost phoneCursors: seq<Cursor<PhoneRow>>)
    requires !contactCursor.closed
    modifies contactCursor
    ensures contacts == Aggregate(contactCursor.rows, phonesOf, normalize)
    ensures contactCursor.rows == [] ==> contacts == []
    ensures contactCursor.closed && contactCursor.pos == |contactCursor.rows|
    ensures trace == ExpectedTrace(contactCursor.rows)
    ensures |phoneCursors| == |contacts| == |QualifyingIndices(contactCursor.rows)|
    ensures forall k :: 0 <= k < |phoneCursors| ==>
              fresh(phoneCursors[k]) && phoneCursors[k].closed
              && phoneCursors[k].rows == phonesOf(contactCursor.rows[QualifyingIndices(contactCursor.rows)[k]].id)
              && Normalized(phoneCursors[k].rows, normalize) == contacts[k].phones
  {
    var rows := contactCursor.rows;
    contacts, trace, phoneCursors := [], [], [];
    var more := contactCursor.MoveToFirst();
    while more
      invariant !contactCursor.closed && 0 <= contactCursor.pos <= |rows| && contactCursor.Valid()
      invariant more <==> contactCursor.pos < |rows|
      invariant contacts == Aggregate(rows[..contactCursor.pos], phonesOf, normalize)
      invariant trace == VisitTrace(rows, contactCursor.pos)
      invariant |phoneCursors| == |QueriedIds(rows[..contactCursor.pos])|
      invariant forall k :: 0 <= k < |phoneCursors| ==> fresh(phoneCursors[k]) && phoneCursors[k].closed
      invariant forall k :: 0 <= k < |phoneCursors| ==>
                  phoneCursors[k].rows == phonesOf(QueriedIds(rows[..contactCursor.pos])[k])
      decreases |rows| - contactCursor.pos
    {
      var i := contactCursor.pos;
      PrefixStep(rows, i, phonesOf, normalize);
      ghost var events := trace;
      assert VisitTrace(rows, i + 1) == events + RowEvents(rows, i);
      var row := contactCursor.Row();
      var hasPhoneNumber := row.hasPhoneNumber;
      trace := trace + [RowVisited(i)];
      if hasPhoneNumber > 0 {
        var contact, phoneCursor := ContactForRow(row, phonesOf, normalize);
        trace := trace + [PhonesOpened(i)] + if phoneCursor.closed then [PhonesClosed(i)] else [];
        contacts := contacts + [contact];
        phoneCursors := phoneCursors + [phoneCursor];
      }
      assert trace == events + RowEvents(rows, i);
      assert contacts == Aggregate(rows[..i + 1], phonesOf, normalize);
      ghost var ids := QueriedIds(rows[..i + 1]);
      assert |phoneCursors| == |ids|;
      assert forall k :: 0 <= k < |phoneCursors| ==> phoneCursors[k].rows == phonesOf(ids[k]);
      more := contactCursor.MoveToNext();
      assert contactCursor.pos == i + 1;
    }
    assert rows[..|rows|] == rows;
    QueriedIdsFollowRows(rows, phonesOf, normalize);
    if !contactCursor.closed {
      contactCursor.Close();
      trace := trace + [ContactsClosed];
    }
  }
}
