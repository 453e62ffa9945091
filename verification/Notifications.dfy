/** Keyset pagination of a recipient's notifications. */
module Notifications {
  import opened Calendar

  datatype Notification = Notification(id: int, recipient: int, createdAt: int, read: bool)

  const MAX_LIMIT := 100

  // ---------- the order (created_at, id) ----------

  predicate Below(a: Notification, b: Notification) {
    a.createdAt < b.createdAt || (a.createdAt == b.createdAt && a.id < b.id)
  }

  ghost predicate Descending(ns: seq<Notification>) {
    forall i, j :: 0 <= i < j < |ns| ==> Below(ns[j], ns[i])
  }

  function InsertDescending(n: Notification, ns: seq<Notification>): seq<Notification> {
    if ns == [] || Below(ns[0], n) then [n] + ns
    else [ns[0]] + InsertDescending(n, ns[1..])
  }

  function SortDescending(ns: seq<Notification>): seq<Notification> {
    if ns == [] then [] else InsertDescending(ns[0], SortDescending(ns[1..]))
  }

  lemma {:induction false} InsertKeepsElements(n: Notification, ns: seq<Notification>)
    ensures multiset(InsertDescending(n, ns)) == multiset(ns) + multiset{n}
    ensures forall m :: m in InsertDescending(n, ns) <==> m == n || m in ns
  {
    if ns == [] || Below(ns[0], n) {
    } else {
      InsertKeepsElements(n, ns[1..]);
      assert ns == [ns[0]] + ns[1..];
    }
  }

  lemma {:induction false} InsertKeepsOrder(n: Notification, ns: seq<Notification>)
    requires Descending(ns) && forall m :: m in ns ==> m.id != n.id
    ensures Descending(InsertDescending(n, ns))
  {
    if ns == [] || Below(ns[0], n) {
    } else {
      InsertKeepsOrder(n, ns[1..]);
      InsertKeepsElements(n, ns[1..]);
      var rest := InsertDescending(n, ns[1..]);
      forall j | 0 <= j < |rest| ensures Below(rest[j], ns[0]) {
        assert rest[j] in rest;
      }
    }
  }

  ghost predicate UniqueIds(ns: seq<Notification>) {
    forall i, j :: 0 <= i < j < |ns| ==> ns[i].id != ns[j].id
  }

  // Sorting is a permutation into descending order.
  lemma {:induction false} SortSorts(ns: seq<Notification>)
    requires UniqueIds(ns)
    ensures Descending(SortDescending(ns)) && NewestFirst(SortDescending(ns))
    ensures multiset(SortDescending(ns)) == multiset(ns)
    ensures forall m :: m in SortDescending(ns) <==> m in ns
  {
    if ns != [] {
      SortSorts(ns[1..]);
      InsertKeepsElements(ns[0], SortDescending(ns[1..]));
      assert ns == [ns[0]] + ns[1..];
      InsertKeepsOrder(ns[0], SortDescending(ns[1..]));
    }
    DescendingIsNewestFirst(SortDescending(ns));
  }

  // A descending sequence is determined by its elements.
  lemma {:induction false} DescendingIsUnique(a: seq<Notification>, b: seq<Notification>)
    requires Descending(a) && Descending(b) && forall m :: m in a <==> m in b
    ensures a == b
  {
    assert b != [] ==> b[0] in b;
    if a != [] {
      assert a[0] in b;
      assert b[0] in a;
      assert a[0] == b[0];
      forall m ensures m in a[1..] <==> m in b[1..] {
        assert m in a <==> m == a[0] || m in a[1..];
        assert m in b <==> m == b[0] || m in b[1..];
      }
      DescendingIsUnique(a[1..], b[1..]);
    }
  }

  // ---------- the repository query and the handler ----------

  datatype Scope = Scope(recipient: int, unreadOnly: bool)

  predicate Visible(sc: Scope, n: Notification) {
    n.recipient == sc.recipient && (sc.unreadOnly ==> !n.read)
  }

  function FindCursor(rows: seq<Notification>, recipient: int, id: int): Option<Notification> {
    if rows == [] then None
    else if rows[0].id == id && rows[0].recipient == recipient then Some(rows[0])
    else FindCursor(rows[1..], recipient, id)
  }

  // Visible rows below the bound, if there is one.
  function Filter(rows: seq<Notification>, sc: Scope, bound: Option<Notification>): seq<Notification> {
    if rows == [] then []
    else (if Visible(sc, rows[0]) && (bound.Some? ==> Below(rows[0], bound.value)) then [rows[0]] else [])
         + Filter(rows[1..], sc, bound)
  }

  // A cursor that names no notification of the recipient bounds nothing.
  function BoundOf(rows: seq<Notification>, sc: Scope, cursor: Option<int>): Option<Notification> {
    if cursor == None then None else FindCursor(rows, sc.recipient, cursor.value)
  }

  function Remaining(rows: seq<Notification>, sc: Scope, cursor: Option<int>): seq<Notification> {
    SortDescending(Filter(rows, sc, BoundOf(rows, sc, cursor)))
  }

  function Take(ns: seq<Notification>, n: nat): seq<Notification> {
    if n <= |ns| then ns[..n] else ns
  }

  function ListByRecipient(rows: seq<Notification>, sc: Scope, limit: nat, cursor: Option<int>): seq<Notification> {
    Take(Remaining(rows, sc, cursor), limit)
  }

  datatype Page = Page(items: seq<Notification>, next: Option<int>)

  function Clamp(limit: int): nat {
    if limit > MAX_LIMIT then MAX_LIMIT else if limit < 1 then 1 else limit
  }

  function ListMine(rows: seq<Notification>, sc: Scope, limit: int, cursor: Option<int>): Page {
    var n := Clamp(limit);
    var fetched := ListByRecipient(rows, sc, n + 1, cursor);
    var page := Take(fetched, n);
    Page(page, if |fetched| > n && page != [] then Some(page[|page| - 1].id) else None)
  }

  // ---------- one page ----------

  lemma {:induction false} FilterIsExact(rows: seq<Notification>, sc: Scope, bound: Option<Notification>)
    ensures forall n :: n in Filter(rows, sc, bound) <==>
              n in rows && Visible(sc, n) && (bound.Some? ==> Below(n, bound.value))
    ensures UniqueIds(rows) ==> UniqueIds(Filter(rows, sc, bound))
  {
    if rows != [] {
      FilterIsExact(rows[1..], sc, bound);
      assert forall n :: n in rows <==> n == rows[0] || n in rows[1..];
      if UniqueIds(rows) {
        assert forall n :: n in rows[1..] ==> n.id != rows[0].id;
      }
    }
  }

  // What a cursor leaves: descending, exactly the visible rows below it.
  lemma RemainingIsExact(rows: seq<Notification>, sc: Scope, cursor: Option<int>)
    requires UniqueIds(rows)
    ensures Descending(Remaining(rows, sc, cursor))
    ensures var bound := BoundOf(rows, sc, cursor);
            forall n :: n in Remaining(rows, sc, cursor) <==>
              n in rows && Visible(sc, n) && (bound.Some? ==> Below(n, bound.value))
  {
    var bound := BoundOf(rows, sc, cursor);
    FilterIsExact(rows, sc, bound);
    SortSorts(Filter(rows, sc, bound));
  }

  lemma {:induction false} CursorIsFound(rows: seq<Notification>, n: Notification)
    requires UniqueIds(rows) && n in rows
    ensures FindCursor(rows, n.recipient, n.id) == Some(n)
  {
    if rows[0] != n {
      assert rows == [rows[0]] + rows[1..];
      assert n in rows[1..];
      CursorIsFound(rows[1..], n);
    }
  }

  // A page is the first Clamp(limit) of what remains; the cursor it hands out leaves exactly the rest,
  // and it hands out none exactly when nothing is left.
  lemma PageThenRest(rows: seq<Notification>, sc: Scope, limit: int, cursor: Option<int>)
    requires UniqueIds(rows)
    ensures var left, page := Remaining(rows, sc, cursor), ListMine(rows, sc, limit, cursor);
            && 1 <= Clamp(limit) <= MAX_LIMIT
            && page.items == Take(left, Clamp(limit))
            && (page.next == None <==> |left| <= Clamp(limit))
            && (page.next.Some? ==>
                  page.items != [] && page.items + Remaining(rows, sc, page.next) == left)
  {
    var left, page := Remaining(rows, sc, cursor), ListMine(rows, sc, limit, cursor);
    var n := Clamp(limit);
    RemainingIsExact(rows, sc, cursor);
    if page.next.Some? {
      var last := left[n - 1];
      assert page.items == left[..n];
      assert last in left;
      CursorIsFound(rows, last);
      RemainingIsExact(rows, sc, page.next);
      RestIsTail(left, n, Remaining(rows, sc, page.next));
      assert left == left[..n] + left[n..];
    }
  }

  lemma RestIsTail(left: seq<Notification>, n: nat, rest: seq<Notification>)
    requires Descending(left) && 1 <= n <= |left| && Descending(rest)
    requires forall m :: m in rest <==> m in left && Below(m, left[n - 1])
    ensures rest == left[n..]
  {
    forall m ensures m in left[n..] <==> m in left && Below(m, left[n - 1]) {
      if m in left && Below(m, left[n - 1]) {
        var i :| 0 <= i < |left| && left[i] == m;
        assert i >= n;
        assert m == left[n..][i - n];
      }
    }
    DescendingIsUnique(rest, left[n..]);
  }

  // Newest first, and of the same moment the greater id first.
  ghost predicate NewestFirst(ns: seq<Notification>) {
    forall i, j :: 0 <= i < j < |ns| ==>
      || ns[j].createdAt < ns[i].createdAt
      || (ns[j].createdAt == ns[i].createdAt && ns[j].id < ns[i].id)
  }

  lemma DescendingIsNewestFirst(ns: seq<Notification>)
    requires Descending(ns)
    ensures NewestFirst(ns)
  {
  }

  // A limit from 1 to 100 is kept; others move to the nearer end.
  lemma ClampKeeps(limit: int)
    ensures 1 <= limit <= 100 ==> Clamp(limit) == limit
    ensures limit < 1 ==> Clamp(limit) == 1
    ensures limit > 100 ==> Clamp(limit) == 100
  {
  }

  ghost predicate Mine(sc: Scope, n: Notification) {
    n.recipient == sc.recipient && !(sc.unreadOnly && n.read)
  }

  // The first page: newest first; the recipient's own rows only, unread ones only if asked; and a row of
  // theirs that it leaves out is older than all of it, and only left out because the page is full.
  lemma FirstPageIsNewest(rows: seq<Notification>, sc: Scope, limit: int, n: Notification)
    requires UniqueIds(rows)
    ensures var items := ListMine(rows, sc, limit, None).items;
            && NewestFirst(items)
            && (forall m :: m in items ==> m in rows && Mine(sc, m))
            && (n in rows && Mine(sc, n) && n !in items ==>
                  && |items| == Clamp(limit)
                  && forall m :: m in items ==>
                       n.createdAt < m.createdAt || (n.createdAt == m.createdAt && n.id < m.id))
  {
    var left, items := Remaining(rows, sc, None), ListMine(rows, sc, limit, None).items;
    PageThenRest(rows, sc, limit, None);
    RemainingIsExact(rows, sc, None);
    forall m | m in items ensures m in left {
    }
    if n in rows && Mine(sc, n) && n !in items {
      var k :| 0 <= k < |left| && left[k] == n;
      assert forall i :: 0 <= i < |items| ==> left[i] == items[i] && items[i] in items;
    }
  }

  // ---------- following the cursor ----------

  // The same row, which may have been marked read meanwhile.
  predicate Later(n: Notification, m: Notification) {
    m == n || m == n.(read := true)
  }

  // The row as it is in another state of the store.
  ghost predicate Has(rows: seq<Notification>, n: Notification) {
    exists m :: m in rows && Later(n, m)
  }

  ghost predicate Was(rows: seq<Notification>, m: Notification) {
    exists n :: n in rows && Later(n, m)
  }

  // While the cursor at last is outstanding, rows stay, may be marked read, and arrive above it.
  ghost predicate Evolves(rows: seq<Notification>, after: seq<Notification>, sc: Scope, last: Notification) {
    && UniqueIds(after)
    && (forall n :: n in rows ==> Has(after, n))
    && forall m :: m in after && m.recipient == sc.recipient ==> Below(last, m) || Was(rows, m)
  }

  // The store that the next page is read from: later holds its states, one for each page, and the
  // last of them stays.
  function Snapshot(rows: seq<Notification>, later: seq<seq<Notification>>): seq<Notification> {
    if later == [] then rows else later[0]
  }

  function Rest(later: seq<seq<Notification>>): seq<seq<Notification>> {
    if later == [] then [] else later[1..]
  }

  ghost predicate RunOk(
      rows: seq<Notification>, later: seq<seq<Notification>>, sc: Scope, limit: int, cursor: Option<int>)
    decreases |later|
  {
    && UniqueIds(rows)
    && (later != [] ==>
          var page := ListMine(rows, sc, limit, cursor);
          page.next.Some? ==>
            && page.items != []
            && Evolves(rows, later[0], sc, page.items[|page.items| - 1])
            && RunOk(later[0], later[1..], sc, limit, page.next))
  }

  /** The items of all pages, read from a store that evolves between one page and the next. Stops when a
      page has no next cursor. */
  ghost function Follow(
      rows: seq<Notification>, later: seq<seq<Notification>>, sc: Scope, limit: int, cursor: Option<int>)
    : seq<Notification>
    requires RunOk(rows, later, sc, limit, cursor)
    decreases |Remaining(rows, sc, cursor)|
  {
    var page := ListMine(rows, sc, limit, cursor);
    if page.next == None then page.items
    else
      NextPageIsSmaller(rows, later, sc, limit, cursor);
      page.items + Follow(Snapshot(rows, later), Rest(later), sc, limit, page.next)
  }

  // What a cursor leaves in a later state is what it left, less the rows that are no longer visible.
  lemma CursorLeavesTheSame(
      rows: seq<Notification>, after: seq<Notification>, sc: Scope, last: Notification)
    requires UniqueIds(rows) && last in rows && last.recipient == sc.recipient && Evolves(rows, after, sc, last)
    ensures forall m :: m in Remaining(after, sc, Some(last.id)) ==> Was(Remaining(rows, sc, Some(last.id)), m)
    ensures forall n, m :: n in Remaining(rows, sc, Some(last.id)) && m in after && Later(n, m) && Visible(sc, m) ==>
              m in Remaining(after, sc, Some(last.id))
  {
    assert Has(after, last);
    var now :| now in after && Later(last, now);
    CursorIsFound(rows, last);
    CursorIsFound(after, now);
    RemainingIsExact(rows, sc, Some(last.id));
    RemainingIsExact(after, sc, Some(last.id));
    forall m | m in Remaining(after, sc, Some(last.id)) ensures Was(Remaining(rows, sc, Some(last.id)), m) {
      assert Was(rows, m);
      var n :| n in rows && Later(n, m);
      assert n in Remaining(rows, sc, Some(last.id));
    }
  }

  function IdsOf(ns: seq<Notification>): set<int> {
    set n | n in ns :: n.id
  }

  lemma {:induction false} CountOfIds(ns: seq<Notification>)
    requires UniqueIds(ns)
    ensures |IdsOf(ns)| == |ns|
  {
    if ns != [] {
      CountOfIds(ns[1..]);
      assert IdsOf(ns) == {ns[0].id} + IdsOf(ns[1..]);
    }
  }

  lemma NoLonger(a: seq<Notification>, b: seq<Notification>)
    requires UniqueIds(a) && UniqueIds(b) && forall m :: m in a ==> Was(b, m)
    ensures |a| <= |b|
  {
    CountOfIds(a);
    CountOfIds(b);
    forall m | m in a ensures m.id in IdsOf(b) {
      assert Was(b, m);
    }
    assert IdsOf(b) == IdsOf(a) + (IdsOf(b) - IdsOf(a));
  }

  lemma RemainingHasUniqueIds(rows: seq<Notification>, sc: Scope, cursor: Option<int>)
    requires UniqueIds(rows)
    ensures UniqueIds(Remaining(rows, sc, cursor))
  {
    var left := Remaining(rows, sc, cursor);
    RemainingIsExact(rows, sc, cursor);
    forall i, j | 0 <= i < j < |left| ensures left[i].id != left[j].id {
      assert left[i] in rows && left[j] in rows && Below(left[j], left[i]);
    }
  }

  lemma NextPageIsSmaller(
      rows: seq<Notification>, later: seq<seq<Notification>>, sc: Scope, limit: int, cursor: Option<int>)
    requires RunOk(rows, later, sc, limit, cursor) && ListMine(rows, sc, limit, cursor).next.Some?
    ensures var page := ListMine(rows, sc, limit, cursor);
            var next, rest := Snapshot(rows, later), Remaining(rows, sc, page.next);
            && RunOk(next, Rest(later), sc, limit, page.next)
            && page.items + rest == Remaining(rows, sc, cursor)
            && (forall m :: m in Remaining(next, sc, page.next) ==> Was(rest, m))
            && (forall n, m :: n in rest && m in next && Later(n, m) && Visible(sc, m) ==>
                  m in Remaining(next, sc, page.next))
            && |Remaining(next, sc, page.next)| < |Remaining(rows, sc, cursor)|
  {
    var page := ListMine(rows, sc, limit, cursor);
    PageThenRest(rows, sc, limit, cursor);
    RemainingIsExact(rows, sc, cursor);
    var last := page.items[|page.items| - 1];
    assert last in Remaining(rows, sc, cursor);
    assert page.next == Some(last.id);
    if later == [] {
      StayingEvolves(rows, sc, last);
    }
    CursorLeavesTheSame(rows, Snapshot(rows, later), sc, last);
    RemainingHasUniqueIds(rows, sc, page.next);
    RemainingHasUniqueIds(Snapshot(rows, later), sc, page.next);
    NoLonger(Remaining(Snapshot(rows, later), sc, page.next), Remaining(rows, sc, page.next));
  }

  lemma StayingEvolves(rows: seq<Notification>, sc: Scope, last: Notification)
    requires UniqueIds(rows)
    ensures Evolves(rows, rows, sc, last)
  {
    forall n | n in rows ensures Has(rows, n) && Was(rows, n) {
      assert Later(n, n);
    }
  }

  // Visible in every later state as well. A row of another scope than unread always is.
  ghost predicate Stays(sc: Scope, n: Notification, later: seq<seq<Notification>>) {
    sc.unreadOnly ==> forall k :: 0 <= k < |later| ==> n in later[k]
  }

  // Following next_cursor to its end, while rows arrive above it and rows are marked read: what is
  // returned is descending, so nothing is repeated; each item is a row that the cursor left; and no row
  // that stays visible is skipped.
  lemma {:induction false} FollowIsExact(
      rows: seq<Notification>, later: seq<seq<Notification>>, sc: Scope, limit: int, cursor: Option<int>)
    requires RunOk(rows, later, sc, limit, cursor)
    ensures var left, all := Remaining(rows, sc, cursor), Follow(rows, later, sc, limit, cursor);
            && Descending(all)
            && (forall m :: m in all ==> Was(left, m) && Seen(rows, later, m))
            && (forall n :: n in left && Stays(sc, n, later) ==> Has(all, n))
    decreases |Remaining(rows, sc, cursor)|
  {
    var page, left := ListMine(rows, sc, limit, cursor), Remaining(rows, sc, cursor);
    PageThenRest(rows, sc, limit, cursor);
    RemainingIsExact(rows, sc, cursor);
    forall n | n in left ensures Later(n, n) && Was(left, n) {
    }
    if page.next.Some? {
      var next, rest := Snapshot(rows, later), Remaining(rows, sc, page.next);
      NextPageIsSmaller(rows, later, sc, limit, cursor);
      FollowIsExact(next, Rest(later), sc, limit, page.next);
      var tail := Follow(next, Rest(later), sc, limit, page.next);
      TailIsOfRest(rows, later, sc, limit, cursor, tail);
      JoinDescending(page.items, rest, tail);
      forall m | m in tail ensures Was(left, m) {
        assert Was(rest, m);
      }
      forall n | n in rest && Stays(sc, n, later) ensures Has(tail, n) {
        StaysInRest(rows, later, sc, limit, cursor, n, tail);
      }
    }
  }

  // In some state of the store.
  ghost predicate Seen(rows: seq<Notification>, later: seq<seq<Notification>>, m: Notification) {
    m in rows || exists k :: 0 <= k < |later| && m in later[k]
  }

  lemma SeenLater(rows: seq<Notification>, later: seq<seq<Notification>>, m: Notification)
    requires Seen(Snapshot(rows, later), Rest(later), m)
    ensures Seen(rows, later, m)
  {
    if later != [] {
      if m !in later[0] {
        var k :| 0 <= k < |later[1..]| && m in later[1..][k];
        assert m in later[k + 1];
      }
    }
  }

  lemma WasBefore(first: seq<Notification>, second: seq<Notification>, m: Notification)
    requires (forall n :: n in second ==> Was(first, n)) && Was(second, m)
    ensures Was(first, m)
  {
    var n :| n in second && Later(n, m);
    assert Was(first, n);
    var o :| o in first && Later(o, n);
    assert Later(o, m);
  }

  // Items of later pages are rows that the first page left.
  lemma TailIsOfRest(
      rows: seq<Notification>, later: seq<seq<Notification>>, sc: Scope, limit: int, cursor: Option<int>,
      tail: seq<Notification>)
    requires RunOk(rows, later, sc, limit, cursor) && ListMine(rows, sc, limit, cursor).next.Some?
    requires var page, next := ListMine(rows, sc, limit, cursor), Snapshot(rows, later);
             forall m :: m in tail ==> Was(Remaining(next, sc, page.next), m) && Seen(next, Rest(later), m)
    ensures var rest := Remaining(rows, sc, ListMine(rows, sc, limit, cursor).next);
            forall m :: m in tail ==> Was(rest, m) && Seen(rows, later, m)
  {
    var page, next := ListMine(rows, sc, limit, cursor), Snapshot(rows, later);
    var rest, left := Remaining(rows, sc, page.next), Remaining(next, sc, page.next);
    NextPageIsSmaller(rows, later, sc, limit, cursor);
    forall m | m in tail ensures Was(rest, m) && Seen(rows, later, m) {
      WasBefore(rest, left, m);
      SeenLater(rows, later, m);
    }
  }

  // A row below the first page that stays visible is among what the later pages return.
  lemma StaysInRest(
      rows: seq<Notification>, later: seq<seq<Notification>>, sc: Scope, limit: int, cursor: Option<int>,
      n: Notification, tail: seq<Notification>)
    requires RunOk(rows, later, sc, limit, cursor) && ListMine(rows, sc, limit, cursor).next.Some?
    requires var page, next := ListMine(rows, sc, limit, cursor), Snapshot(rows, later);
             && n in Remaining(rows, sc, page.next) && Stays(sc, n, later)
             && forall m :: m in Remaining(next, sc, page.next) && Stays(sc, m, Rest(later)) ==> Has(tail, m)
    ensures Has(tail, n)
  {
    var page, next := ListMine(rows, sc, limit, cursor), Snapshot(rows, later);
    NextPageIsSmaller(rows, later, sc, limit, cursor);
    RemainingIsExact(rows, sc, page.next);
    assert later == [] || sc.unreadOnly ==> n in next && Later(n, n);
    var m :| m in next && Later(n, m) && (later == [] || sc.unreadOnly ==> m == n);
    assert m in Remaining(next, sc, page.next) && Stays(sc, m, Rest(later));
    assert Has(tail, m);
    var o :| o in tail && Later(m, o);
    assert Later(n, o);
  }

  lemma JoinDescending(items: seq<Notification>, rest: seq<Notification>, tail: seq<Notification>)
    requires Descending(items + rest) && Descending(tail) && forall m :: m in tail ==> Was(rest, m)
    ensures Descending(items + tail)
  {
    forall i, j | 0 <= i < |items| && 0 <= j < |tail| ensures Below(tail[j], items[i]) {
      assert Was(rest, tail[j]);
      var n :| n in rest && Later(n, tail[j]);
      var k :| 0 <= k < |rest| && rest[k] == n;
      assert Below((items + rest)[|items| + k], (items + rest)[i]);
    }
    forall i, j | 0 <= i < j < |items| ensures Below(items[j], items[i]) {
      assert Below((items + rest)[j], (items + rest)[i]);
    }
  }

  // The row that m is a version of is in rows and was visible.
  ghost predicate WasVisible(rows: seq<Notification>, sc: Scope, m: Notification) {
    exists o :: o in rows && Visible(sc, o) && Later(o, m)
  }

  ghost predicate OnceIn(all: seq<Notification>, n: Notification) {
    exists i :: 0 <= i < |all| && Later(n, all[i]) && forall j :: 0 <= j < |all| && j != i ==> all[j].id != n.id
  }

  // From the start: every notification that stays visible exactly once, newest first, and nothing that
  // was not visible then.
  lemma FollowFromStart(
      rows: seq<Notification>, later: seq<seq<Notification>>, sc: Scope, limit: int, n: Notification)
    requires RunOk(rows, later, sc, limit, None) && n in rows && Visible(sc, n) && Stays(sc, n, later)
    ensures var all := Follow(rows, later, sc, limit, None);
            && NewestFirst(all)
            && (forall m :: m in all ==> WasVisible(rows, sc, m))
            && OnceIn(all, n)
  {
    var left := Remaining(rows, sc, None);
    FollowIsExact(rows, later, sc, limit, None);
    RemainingIsExact(rows, sc, None);
    RemainingHasUniqueIds(rows, sc, None);
    OnlyOnce(rows, sc, left, Follow(rows, later, sc, limit, None), n);
  }

  lemma OnlyOnce(
      rows: seq<Notification>, sc: Scope, left: seq<Notification>, all: seq<Notification>, n: Notification)
    requires UniqueIds(left) && n in left && Has(all, n) && Descending(all)
    requires forall m :: m in all ==> Was(left, m)
    requires forall o :: o in left ==> o in rows && Visible(sc, o)
    ensures OnceIn(all, n)
    ensures forall m :: m in all ==> WasVisible(rows, sc, m)
  {
    var m :| m in all && Later(n, m);
    var i :| 0 <= i < |all| && all[i] == m;
    forall j | 0 <= j < |all| && j != i ensures all[j].id != n.id {
      assert Was(left, all[j]);
      var o :| o in left && Later(o, all[j]);
      assert o.id == n.id ==> o == n;
      assert Below(all[j], all[i]) || Below(all[i], all[j]);
    }
    forall m | m in all ensures WasVisible(rows, sc, m) {
      var o :| o in left && Later(o, m);
      assert o in rows && Visible(sc, o);
    }
  }

  // When nothing is marked read meanwhile, exactly what the cursor left is returned, row for row.
  lemma FollowReturnsRemaining(
      rows: seq<Notification>, later: seq<seq<Notification>>, sc: Scope, limit: int, cursor: Option<int>)
    requires RunOk(rows, later, sc, limit, cursor) && Unmarked(rows, later)
    ensures Follow(rows, later, sc, limit, cursor) == Remaining(rows, sc, cursor)
  {
    FollowIsExact(rows, later, sc, limit, cursor);
    RemainingIsExact(rows, sc, cursor);
    RowForRow(rows, later, Remaining(rows, sc, cursor), Follow(rows, later, sc, limit, cursor), sc);
  }

  ghost predicate Unmarked(rows: seq<Notification>, later: seq<seq<Notification>>) {
    forall k :: 0 <= k < |later| ==> UniqueIds(later[k]) && forall n :: n in rows ==> n in later[k]
  }

  lemma RowForRow(
      rows: seq<Notification>, later: seq<seq<Notification>>, left: seq<Notification>, all: seq<Notification>,
      sc: Scope)
    requires UniqueIds(rows) && Unmarked(rows, later) && Descending(left) && Descending(all)
    requires forall n :: n in left ==> n in rows
    requires forall m :: m in all ==> Was(left, m) && Seen(rows, later, m)
    requires forall n :: n in left && Stays(sc, n, later) ==> Has(all, n)
    ensures all == left
  {
    forall m | m in all ensures m in left {
      var n :| n in left && Later(n, m);
      SameIdSameRow(rows, later, n, m);
    }
    forall n | n in left ensures n in all {
      assert Has(all, n);
      var m :| m in all && Later(n, m);
      SameIdSameRow(rows, later, n, m);
    }
    DescendingIsUnique(all, left);
  }

  lemma SameIdSameRow(rows: seq<Notification>, later: seq<seq<Notification>>, n: Notification, m: Notification)
    requires UniqueIds(rows) && Unmarked(rows, later) && n in rows && Seen(rows, later, m) && m.id == n.id
    ensures m == n
  {
    assert forall k :: 0 <= k < |later| && m in later[k] ==> n in later[k];
  }

  // An unknown or foreign cursor starts again from the newest notification.
  lemma UnknownCursorStartsOver(rows: seq<Notification>, sc: Scope, limit: int, id: int)
    requires forall n :: n in rows ==> n.id != id || n.recipient != sc.recipient
    ensures ListMine(rows, sc, limit, Some(id)) == ListMine(rows, sc, limit, None)
  {
    NoCursor(rows, sc.recipient, id);
  }

  lemma {:induction false} NoCursor(rows: seq<Notification>, recipient: int, id: int)
    requires forall n :: n in rows ==> n.id != id || n.recipient != recipient
    ensures FindCursor(rows, recipient, id) == None
  {
    if rows != [] {
      NoCursor(rows[1..], recipient, id);
    }
  }
}
