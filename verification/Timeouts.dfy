/** The timer queue of the reactor. */
module Timeouts {
  import opened Wrappers

  // A registered timeout; its callback has been taken out once it is used.
  datatype Entry = Entry(deadline: nat, id: nat, used: bool)

  // What a callback does when it runs.
  datatype Action = Register(deadline: nat) | Disconnect(id: nat)

  datatype Firing = Firing(id: nat, time: nat)

  predicate Sorted(s: seq<Entry>) {
    forall i, j :: 0 <= i < j < |s| ==> s[i].deadline <= s[j].deadline
  }

  predicate NoneUsed(s: seq<Entry>) {
    forall e <- s :: !e.used
  }

  ghost predicate UsedAreDue(s: seq<Entry>, now: nat) {
    forall e <- s :: e.used ==> e.deadline <= now
  }

  /** Equal deadlines keep the order of their registration. */
  function Insert(s: seq<Entry>, e: Entry): (r: seq<Entry>)
    ensures |r| == |s| + 1
  {
    if s == [] || s[0].deadline > e.deadline then [e] + s else [s[0]] + Insert(s[1..], e)
  }

  function InsertAll(s: seq<Entry>, es: seq<Entry>): seq<Entry> {
    if es == [] then s else Insert(InsertAll(s, es[..|es| - 1]), es[|es| - 1])
  }

  /** The timeouts that fire, in order. */
  function Due(s: seq<Entry>, now: nat): seq<nat> {
    if s == [] then []
    else (if s[0].deadline <= now then [s[0].id] else []) + Due(s[1..], now)
  }

  predicate Stays(e: Entry, now: nat, disconnected: set<nat>) {
    e.deadline > now && e.id !in disconnected
  }

  /** The later timeouts that nobody has disconnected. */
  function Kept(s: seq<Entry>, now: nat, disconnected: set<nat>): seq<Entry> {
    if s == [] then []
    else (if Stays(s[0], now, disconnected) then [s[0]] else []) + Kept(s[1..], now, disconnected)
  }

  /** The queue while the callbacks run: the ones that fire are still in it, marked used. */
  function Marked(s: seq<Entry>, now: nat, disconnected: set<nat>): seq<Entry> {
    if s == [] then []
    else
      (if s[0].deadline <= now then [s[0].(used := true)]
       else if s[0].id in disconnected then []
       else [s[0]])
      + Marked(s[1..], now, disconnected)
  }

  function Unused(s: seq<Entry>): seq<Entry> {
    if s == [] then [] else (if s[0].used then [] else [s[0]]) + Unused(s[1..])
  }

  // Facts about the queue

  lemma {:induction false} InsertMembers(s: seq<Entry>, e: Entry)
    ensures forall x :: x in Insert(s, e) <==> x == e || x in s
  {
    if s != [] && s[0].deadline <= e.deadline {
      InsertMembers(s[1..], e);
      assert s == [s[0]] + s[1..];
    }
  }

  lemma {:induction false} InsertSorted(s: seq<Entry>, e: Entry)
    requires Sorted(s)
    ensures Sorted(Insert(s, e))
  {
    if s != [] && s[0].deadline <= e.deadline {
      InsertSorted(s[1..], e);
      InsertMembers(s[1..], e);
      var r := Insert(s[1..], e);
      forall j | 0 <= j < |r| ensures s[0].deadline <= r[j].deadline {
        assert r[j] in r;
        if r[j] in s[1..] {
          var k :| 0 <= k < |s[1..]| && s[1..][k] == r[j];
          assert s[k + 1] == r[j];
        }
      }
    }
  }

  lemma {:induction false} UnusedMembers(s: seq<Entry>)
    ensures forall x :: x in Unused(s) <==> x in s && !x.used
  {
    if s != [] {
      UnusedMembers(s[1..]);
      assert s == [s[0]] + s[1..];
    }
  }

  /** Inserting in front of later entries. */
  lemma {:induction false} InsertFront(s: seq<Entry>, e: Entry)
    requires forall x <- s :: x.deadline > e.deadline
    ensures Insert(s, e) == [e] + s
  {
    if s != [] {
      assert s[0] in s;
    }
  }

  lemma UnusedCons(e: Entry, s: seq<Entry>)
    ensures Unused([e] + s) == (if e.used then [] else [e]) + Unused(s)
  {
    assert ([e] + s)[1..] == s;
  }

  lemma InsertCons(first: Entry, s: seq<Entry>, e: Entry)
    requires first.deadline <= e.deadline
    ensures Insert([first] + s, e) == [first] + Insert(s, e)
  {
    assert ([first] + s)[1..] == s;
  }

  /** Removing used entries commutes with registering new ones. */
  lemma {:induction false} UnusedInsert(s: seq<Entry>, e: Entry)
    requires Sorted(s) && !e.used
    ensures Unused(Insert(s, e)) == Insert(Unused(s), e)
  {
    if s == [] || s[0].deadline > e.deadline {
      forall x <- s ensures x.deadline > e.deadline {
        var k :| 0 <= k < |s| && s[k] == x;
      }
      hide Unused, Sorted;
      UnusedCons(e, s);
      UnusedMembers(s);
      InsertFront(Unused(s), e);
    } else {
      assert Sorted(s[1..]);
      assert s == [s[0]] + s[1..];
      hide Unused, Sorted;
      UnusedInsert(s[1..], e);
      UnusedCons(s[0], s[1..]);
      UnusedCons(s[0], Insert(s[1..], e));
      if !s[0].used {
        InsertCons(s[0], Unused(s[1..]), e);
      } else {
        assert [] + Unused(s[1..]) == Unused(s[1..]);
        assert [] + Unused(Insert(s[1..], e)) == Unused(Insert(s[1..], e));
      }
    }
  }

  lemma {:induction false} UnusedInsertAll(s: seq<Entry>, es: seq<Entry>)
    requires Sorted(s) && NoneUsed(es)
    ensures Sorted(InsertAll(s, es)) && Unused(InsertAll(s, es)) == InsertAll(Unused(s), es)
  {
    if es != [] {
      var most, last := es[..|es| - 1], es[|es| - 1];
      assert last in es;
      UnusedInsertAll(s, most);
      InsertSorted(InsertAll(s, most), last);
      UnusedInsert(InsertAll(s, most), last);
    }
  }

  lemma {:induction false} UnusedMarked(s: seq<Entry>, now: nat, disconnected: set<nat>)
    requires NoneUsed(s)
    ensures Unused(Marked(s, now, disconnected)) == Kept(s, now, disconnected)
  {
    if s != [] {
      var rest := Marked(s[1..], now, disconnected);
      assert s[0] in s;
      UnusedMarked(s[1..], now, disconnected);
      UnusedCons(s[0], rest);
      UnusedCons(s[0].(used := true), rest);
      assert [] + rest == rest && [] + Unused(rest) == Unused(rest);
    }
  }

  // Accounting: where every timeout ever registered is

  ghost predicate Holds(s: seq<Entry>, id: nat) {
    exists e :: e in s && e.id == id
  }

  ghost predicate HasFired(fired: seq<Firing>, id: nat) {
    exists f :: f in fired && f.id == id
  }

  ghost predicate NoDuplicates(s: seq<Entry>) {
    s == [] || (!Holds(s[1..], s[0].id) && NoDuplicates(s[1..]))
  }

  ghost predicate FiredOnce(fired: seq<Firing>) {
    forall i, j :: 0 <= i < j < |fired| ==> fired[i].id != fired[j].id
  }

  /** Every identity is in exactly one place: in the queue, fired, or dropped after a disconnection.  Nothing
      fires twice, and nothing fires before its deadline. */
  ghost predicate Accounted(clocks: seq<Entry>, deadlines: seq<nat>, fired: seq<Firing>, dropped: set<nat>) {
    && NoDuplicates(clocks) && FiredOnce(fired)
    && (forall e <- clocks :: e.id < |deadlines| && e.deadline == deadlines[e.id])
    && (forall f <- fired :: f.id < |deadlines| && deadlines[f.id] <= f.time)
    && (forall id: nat | id < |deadlines| ::
          && (Holds(clocks, id) || HasFired(fired, id) || id in dropped)
          && !(Holds(clocks, id) && HasFired(fired, id))
          && !(Holds(clocks, id) && id in dropped) && !(HasFired(fired, id) && id in dropped))
    && (forall id <- dropped :: id < |deadlines|)
  }

  function Firings(ids: seq<nat>, now: nat): (f: seq<Firing>)
    ensures |f| == |ids|
  {
    if ids == [] then [] else [Firing(ids[0], now)] + Firings(ids[1..], now)
  }

  /** The later timeouts that are erased because of a disconnection. */
  function Erased(s: seq<Entry>, now: nat, disconnected: set<nat>): set<nat> {
    set e <- s | e.deadline > now && e.id in disconnected :: e.id
  }

  lemma {:induction false} DueMembers(s: seq<Entry>, now: nat)
    requires NoDuplicates(s)
    ensures forall id :: id in Due(s, now) <==> exists e :: e in s && e.id == id && e.deadline <= now
    ensures forall i, j :: 0 <= i < j < |Due(s, now)| ==> Due(s, now)[i] != Due(s, now)[j]
  {
    if s != [] {
      DueMembers(s[1..], now);
      assert s == [s[0]] + s[1..];
      if s[0].deadline <= now {
        var rest := Due(s[1..], now);
        assert s[0].id !in rest;
        assert Due(s, now) == [s[0].id] + rest;
      } else {
        assert Due(s, now) == Due(s[1..], now);
      }
    }
  }

  lemma {:induction false} KeptMembers(s: seq<Entry>, now: nat, disconnected: set<nat>)
    requires NoDuplicates(s)
    ensures forall e :: e in Kept(s, now, disconnected) <==> e in s && Stays(e, now, disconnected)
    ensures NoDuplicates(Kept(s, now, disconnected))
  {
    if s != [] {
      KeptMembers(s[1..], now, disconnected);
      assert s == [s[0]] + s[1..];
      var rest := Kept(s[1..], now, disconnected);
      if Stays(s[0], now, disconnected) {
        assert ([s[0]] + rest)[1..] == rest;
      } else {
        assert [] + rest == rest;
      }
    }
  }

  lemma {:induction false} InsertNoDuplicates(s: seq<Entry>, e: Entry)
    requires NoDuplicates(s) && !Holds(s, e.id)
    ensures NoDuplicates(Insert(s, e))
  {
    if s == [] || s[0].deadline > e.deadline {
      assert ([e] + s)[1..] == s;
    } else {
      var r := Insert(s[1..], e);
      assert s[0] in s;
      InsertNoDuplicates(s[1..], e);
      InsertMembers(s[1..], e);
      assert ([s[0]] + r)[1..] == r;
    }
  }

  lemma {:induction false} FiringsMembers(ids: seq<nat>, now: nat)
    ensures forall i :: 0 <= i < |ids| ==> Firings(ids, now)[i] == Firing(ids[i], now)
  {
    if ids != [] {
      FiringsMembers(ids[1..], now);
    }
  }

  /** The log after a step holds what it held, and what was due, at this time. */
  lemma FiredNow(fired: seq<Firing>, due: seq<nat>, now: nat)
    ensures var all := fired + Firings(due, now);
      && (forall id :: HasFired(all, id) <==> HasFired(fired, id) || id in due)
      && (forall f <- all :: f in fired || (f.time == now && f.id in due))
  {
    FiringsMembers(due, now);
    var news := Firings(due, now);
    var all := fired + news;
    hide Firings;
    forall f | f in all ensures f in fired || (f.time == now && f.id in due) {
      if f !in fired {
        var i :| 0 <= i < |news| && news[i] == f;
      }
    }
    forall id ensures HasFired(all, id) <==> HasFired(fired, id) || id in due {
      if id in due {
        var i :| 0 <= i < |due| && due[i] == id;
        assert news[i] in all;
      } else if HasFired(fired, id) {
        var f :| f in fired && f.id == id;
        assert f in all;
      }
    }
  }

  lemma OnceMore(fired: seq<Firing>, due: seq<nat>, now: nat)
    requires FiredOnce(fired) && forall id <- due :: !HasFired(fired, id)
    requires forall i, j :: 0 <= i < j < |due| ==> due[i] != due[j]
    ensures FiredOnce(fired + Firings(due, now))
  {
    FiringsMembers(due, now);
    var news := Firings(due, now);
    var all := fired + news;
    hide Firings;
    forall i, j | 0 <= i < j < |all| ensures all[i].id != all[j].id {
      if i < |fired| <= j {
        assert fired[i] in fired && due[j - |fired|] in due;
      }
    }
  }

  lemma WhereNow(clocks: seq<Entry>, deadlines: seq<nat>, now: nat, disconnected: set<nat>, id: nat)
    requires NoDuplicates(clocks) && forall e <- clocks :: e.id < |deadlines| && e.deadline == deadlines[e.id]
    ensures var due, kept, erased := id in Due(clocks, now), Holds(Kept(clocks, now, disconnected), id),
                                     id in Erased(clocks, now, disconnected);
      && (Holds(clocks, id) <==> due || kept || erased)
      && !(due && kept) && !(due && erased) && !(kept && erased)
  {
    DueMembers(clocks, now);
    KeptMembers(clocks, now, disconnected);
    hide Due, Kept, NoDuplicates;
    if Holds(clocks, id) {
      var e :| e in clocks && e.id == id;
      assert e in Kept(clocks, now, disconnected) || id in Due(clocks, now) || id in Erased(clocks, now, disconnected);
    }
  }

  lemma {:induction false} SameEntry(s: seq<Entry>, a: Entry, b: Entry)
    requires NoDuplicates(s) && a in s && b in s && a.id == b.id
    ensures a == b
    decreases |s|
  {
    assert s == [s[0]] + s[1..];
    if a in s[1..] && b in s[1..] {
      SameEntry(s[1..], a, b);
    }
  }

  /** A disconnection is looked at only in timeouts that are not due.  So the first step after it decides: it
      drops the timeout exactly when the deadline is still to come, and fires it otherwise. */
  lemma DisconnectedFate(clocks: seq<Entry>, now: nat, disconnected: set<nat>, e: Entry)
    requires NoDuplicates(clocks) && e in clocks && e.id in disconnected
    ensures e.id in Erased(clocks, now, disconnected) <==> e.deadline > now
    ensures e.id in Due(clocks, now) <==> e.deadline <= now
    ensures !Holds(Kept(clocks, now, disconnected), e.id)
  {
    DueMembers(clocks, now);
    KeptMembers(clocks, now, disconnected);
    hide Due, Kept, NoDuplicates;
    forall x | x in clocks && x.id == e.id ensures x == e { SameEntry(clocks, x, e); }
  }

  /** A timeout disconnected in time that fires nevertheless. */
  lemma DisconnectedFires()
    ensures Due([Entry(5, 0, false)], 5) == [0] && Kept([Entry(5, 0, false)], 5, {0}) == []
  {
    assert [Entry(5, 0, false)][1..] == [];
  }

  lemma ErasedAre(s: seq<Entry>, now: nat, disconnected: set<nat>)
    ensures forall id <- Erased(s, now, disconnected) :: Holds(s, id)
  {
  }

  /** Firing what is due and erasing what is disconnected keeps the account. */
  lemma StepAccounted(clocks: seq<Entry>, deadlines: seq<nat>, fired: seq<Firing>, dropped: set<nat>, now: nat,
                      disconnected: set<nat>)
    requires Accounted(clocks, deadlines, fired, dropped)
    ensures Accounted(Kept(clocks, now, disconnected), deadlines, fired + Firings(Due(clocks, now), now),
                      dropped + Erased(clocks, now, disconnected))
  {
    hide Due, Kept, Erased, Firings, FiredOnce, NoDuplicates;
    var due, erased := Due(clocks, now), Erased(clocks, now, disconnected);
    DueMembers(clocks, now);
    KeptMembers(clocks, now, disconnected);
    FiredNow(fired, due, now);
    forall id | id in due ensures !HasFired(fired, id) && id < |deadlines| && deadlines[id] <= now {
      var e :| e in clocks && e.id == id && e.deadline <= now;
      assert Holds(clocks, id);
    }
    OnceMore(fired, due, now);
    forall id: nat ensures
        var d, k, e := id in due, Holds(Kept(clocks, now, disconnected), id), id in erased;
        (Holds(clocks, id) <==> d || k || e) && !(d && k) && !(d && e) && !(k && e) {
      WhereNow(clocks, deadlines, now, disconnected, id);
    }
    ErasedAre(clocks, now, disconnected);
    hide Holds, HasFired;
  }

  /** A new registration keeps the account. */
  lemma RegisterAccounted(clocks: seq<Entry>, deadlines: seq<nat>, fired: seq<Firing>, dropped: set<nat>, deadline: nat)
    requires Accounted(clocks, deadlines, fired, dropped)
    ensures Accounted(Insert(clocks, Entry(deadline, |deadlines|, false)), deadlines + [deadline], fired, dropped)
  {
    var e := Entry(deadline, |deadlines|, false);
    assert !Holds(clocks, e.id);
    InsertMembers(clocks, e);
    InsertNoDuplicates(clocks, e);
    var r := Insert(clocks, e);
    hide NoDuplicates, Insert, FiredOnce;
    forall id ensures Holds(r, id) <==> Holds(clocks, id) || id == e.id {
      if Holds(clocks, id) {
        var x :| x in clocks && x.id == id;
        assert x in r;
      }
      assert e in r;
    }
    assert !HasFired(fired, e.id) && e.id !in dropped;
  }

  /** The entries a list of callbacks registers, with the identities they get. */
  function Registered(actions: seq<Action>, next: nat): (es: seq<Entry>)
    ensures NoneUsed(es)
  {
    if actions == [] then []
    else
      match actions[0]
      case Register(deadline) => [Entry(deadline, next, false)] + Registered(actions[1..], next + 1)
      case Disconnect(_) => Registered(actions[1..], next)
  }

  function NewDeadlines(actions: seq<Action>): seq<nat> {
    if actions == [] then []
    else (if actions[0].Register? then [actions[0].deadline] else []) + NewDeadlines(actions[1..])
  }

  function Disconnected(actions: seq<Action>): set<nat> {
    set a <- actions | a.Disconnect? :: a.id
  }

  lemma {:induction false} RegisteredSnoc(actions: seq<Action>, a: Action, next: nat)
    ensures |Registered(actions, next)| == |NewDeadlines(actions)|
    ensures Registered(actions + [a], next)
         == Registered(actions, next)
            + (if a.Register? then [Entry(a.deadline, next + |NewDeadlines(actions)|, false)] else [])
    decreases |actions|
  {
    if actions == [] {
      assert [] + [a] == [a] && [a][1..] == [];
      assert Registered([a], next) == if a.Register? then [Entry(a.deadline, next, false)] else [];
    } else {
      var first, rest := actions[0], actions[1..];
      assert (actions + [a])[1..] == rest + [a];
      var after := if first.Register? then next + 1 else next;
      RegisteredSnoc(rest, a, after);
      var head: seq<Entry> := if first.Register? then [Entry(first.deadline, next, false)] else [];
      var last: seq<Entry> := if a.Register? then [Entry(a.deadline, after + |NewDeadlines(rest)|, false)] else [];
      RegisteredFirst(actions, next);
      RegisteredFirst(actions + [a], next);
      hide Registered;
      assert head + (Registered(rest, after) + last) == head + Registered(rest, after) + last;
    }
  }

  lemma RegisteredFirst(actions: seq<Action>, next: nat)
    requires actions != []
    ensures var first := actions[0];
      Registered(actions, next)
      == (if first.Register? then [Entry(first.deadline, next, false)] else [])
         + Registered(actions[1..], if first.Register? then next + 1 else next)
  {
  }

  lemma {:induction false} DeadlinesSnoc(actions: seq<Action>, a: Action)
    ensures NewDeadlines(actions + [a]) == NewDeadlines(actions) + (if a.Register? then [a.deadline] else [])
    decreases |actions|
  {
    var last: seq<nat> := if a.Register? then [a.deadline] else [];
    if actions == [] {
      assert [] + [a] == [a] && [a][1..] == [];
      assert NewDeadlines([a]) == last;
    } else {
      var first: seq<nat> := if actions[0].Register? then [actions[0].deadline] else [];
      assert (actions + [a])[1..] == actions[1..] + [a];
      DeadlinesSnoc(actions[1..], a);
      assert first + (NewDeadlines(actions[1..]) + last) == first + NewDeadlines(actions[1..]) + last;
    }
  }

  lemma DisconnectedSnoc(actions: seq<Action>, a: Action)
    ensures Disconnected(actions + [a]) == Disconnected(actions) + (if a.Disconnect? then {a.id} else {})
  {
  }

  lemma InsertAllSnoc(s: seq<Entry>, es: seq<Entry>, e: Entry)
    ensures InsertAll(s, es + [e]) == Insert(InsertAll(s, es), e)
  {
    assert (es + [e])[..|es|] == es;
  }

  /** Registering whatever the callbacks register keeps the account. */
  lemma {:induction false} ActionsAccounted(clocks: seq<Entry>, deadlines: seq<nat>, fired: seq<Firing>,
                                            dropped: set<nat>, actions: seq<Action>)
    requires Accounted(clocks, deadlines, fired, dropped)
    ensures Accounted(InsertAll(clocks, Registered(actions, |deadlines|)), deadlines + NewDeadlines(actions), fired,
                      dropped)
    decreases |actions|
  {
    hide Accounted, Registered, NewDeadlines, InsertAll, Insert;
    if actions == [] {
      NoActions(clocks, deadlines);
    } else {
      var most, last := actions[..|actions| - 1], actions[|actions| - 1];
      assert most + [last] == actions;
      ActionsAccounted(clocks, deadlines, fired, dropped, most);
      RegisteredSnoc(most, last, |deadlines|);
      DeadlinesSnoc(most, last);
      var es, ds := Registered(most, |deadlines|), deadlines + NewDeadlines(most);
      if last.Register? {
        InsertAllSnoc(clocks, es, Entry(last.deadline, |ds|, false));
        RegisterAccounted(InsertAll(clocks, es), ds, fired, dropped, last.deadline);
        assert ds + [last.deadline] == deadlines + NewDeadlines(actions);
      } else {
        assert es + [] == es && NewDeadlines(most) + [] == NewDeadlines(most);
      }
    }
  }

  lemma NoActions(clocks: seq<Entry>, deadlines: seq<nat>)
    ensures InsertAll(clocks, Registered([], |deadlines|)) == clocks && deadlines + NewDeadlines([]) == deadlines
  {
  }

  // The order of the queue

  /** Earlier deadlines first, and equal ones in the order of their registration. */
  predicate Before(a: Entry, b: Entry) {
    a.deadline < b.deadline || (a.deadline == b.deadline && a.id < b.id)
  }

  ghost predicate InOrder(s: seq<Entry>) {
    s == [] || ((forall x <- s[1..] :: Before(s[0], x)) && InOrder(s[1..]))
  }

  lemma {:induction false} InsertInOrder(s: seq<Entry>, e: Entry)
    requires InOrder(s) && forall x <- s :: x.id < e.id
    ensures InOrder(Insert(s, e))
  {
    if s != [] {
      assert s == [s[0]] + s[1..];
      if s[0].deadline > e.deadline {
        assert ([e] + s)[1..] == s;
      } else {
        InsertInOrder(s[1..], e);
        InsertMembers(s[1..], e);
        assert s[0] in s;
        assert Insert(s, e)[1..] == Insert(s[1..], e);
      }
    }
  }

  lemma {:induction false} KeptInOrder(s: seq<Entry>, now: nat, disconnected: set<nat>)
    requires InOrder(s)
    ensures InOrder(Kept(s, now, disconnected)) && forall x <- Kept(s, now, disconnected) :: x in s
  {
    if s != [] {
      KeptInOrder(s[1..], now, disconnected);
      var rest := Kept(s[1..], now, disconnected);
      assert s == [s[0]] + s[1..];
      if Stays(s[0], now, disconnected) {
        assert ([s[0]] + rest)[1..] == rest;
      } else {
        assert [] + rest == rest;
      }
    }
  }

  /** What the callbacks register goes behind what has the same deadline. */
  lemma {:induction false} ActionsInOrder(clocks: seq<Entry>, deadlines: seq<nat>, fired: seq<Firing>,
                                          dropped: set<nat>, actions: seq<Action>)
    requires Accounted(clocks, deadlines, fired, dropped) && InOrder(clocks)
    ensures InOrder(InsertAll(clocks, Registered(actions, |deadlines|)))
    decreases |actions|
  {
    hide Accounted, Registered, NewDeadlines, InsertAll, Insert, InOrder;
    if actions == [] {
      NoActions(clocks, deadlines);
    } else {
      var most, last := actions[..|actions| - 1], actions[|actions| - 1];
      assert most + [last] == actions;
      ActionsInOrder(clocks, deadlines, fired, dropped, most);
      ActionsAccounted(clocks, deadlines, fired, dropped, most);
      RegisteredSnoc(most, last, |deadlines|);
      var es, ds := Registered(most, |deadlines|), deadlines + NewDeadlines(most);
      if last.Register? {
        var e := Entry(last.deadline, |ds|, false);
        InsertAllSnoc(clocks, es, e);
        IdentitiesBelow(InsertAll(clocks, es), ds, fired, dropped);
        InsertInOrder(InsertAll(clocks, es), e);
      } else {
        assert es + [] == es;
      }
    }
  }

  lemma IdentitiesBelow(clocks: seq<Entry>, deadlines: seq<nat>, fired: seq<Firing>, dropped: set<nat>)
    requires Accounted(clocks, deadlines, fired, dropped)
    ensures forall e <- clocks :: e.id < |deadlines| && e.deadline == deadlines[e.id]
  {
  }

  /** One timeout fires before another: it has the earlier deadline, or the same and was registered first. */
  predicate FiresBefore(deadlines: seq<nat>, a: nat, b: nat) {
    && a < |deadlines| && b < |deadlines|
    && (deadlines[a] < deadlines[b] || (deadlines[a] == deadlines[b] && a < b))
  }

  lemma {:induction false} DueInOrder(s: seq<Entry>, now: nat, deadlines: seq<nat>)
    requires InOrder(s) && forall e <- s :: e.id < |deadlines| && e.deadline == deadlines[e.id]
    ensures forall id <- Due(s, now) :: exists e <- s :: e.id == id
    ensures forall i, j :: 0 <= i < j < |Due(s, now)| ==> FiresBefore(deadlines, Due(s, now)[i], Due(s, now)[j])
  {
    if s != [] {
      DueInOrder(s[1..], now, deadlines);
      var rest := Due(s[1..], now);
      assert s == [s[0]] + s[1..];
      assert s[0] in s;
      if s[0].deadline <= now {
        assert Due(s, now) == [s[0].id] + rest;
        forall id <- rest ensures FiresBefore(deadlines, s[0].id, id) {
          var e :| e in s[1..] && e.id == id;
          assert e in s;
        }
      } else {
        assert Due(s, now) == rest;
      }
    }
  }

  lemma FiringsAre(fired: seq<Firing>, ids: seq<nat>, now: nat)
    ensures |fired + Firings(ids, now)| == |fired| + |ids|
    ensures forall k :: 0 <= k < |ids| ==> (fired + Firings(ids, now))[|fired| + k] == Firing(ids[k], now)
  {
    FiringsMembers(ids, now);
  }

  /** The firings from `from` on are in order. */
  ghost predicate FiredInOrder(fired: seq<Firing>, from: nat, deadlines: seq<nat>) {
    forall i, j :: from <= i < j < |fired| ==> FiresBefore(deadlines, fired[i].id, fired[j].id)
  }

  /** What a step fires, it fires in order. */
  lemma FiringOrder(clocks: seq<Entry>, deadlines: seq<nat>, later: seq<nat>, fired: seq<Firing>, dropped: set<nat>,
                    now: nat)
    requires Accounted(clocks, deadlines, fired, dropped) && InOrder(clocks)
    ensures FiredInOrder(fired + Firings(Due(clocks, now), now), |fired|, deadlines + later)
  {
    var due := Due(clocks, now);
    var all, known := fired + Firings(due, now), deadlines + later;
    IdentitiesBelow(clocks, deadlines, fired, dropped);
    assert forall e <- clocks :: e.id < |known| && e.deadline == known[e.id];
    DueInOrder(clocks, now, known);
    FiringsAre(fired, due, now);
    hide Accounted, InOrder, Due, Firings, FiresBefore;
    forall i, j | |fired| <= i < j < |all| ensures FiresBefore(known, all[i].id, all[j].id) {
      assert all[|fired| + (i - |fired|)] == Firing(due[i - |fired|], now);
      assert all[|fired| + (j - |fired|)] == Firing(due[j - |fired|], now);
    }
  }

  /** The actions of the callbacks that have run. */
  function Actions(script: seq<seq<Action>>, count: nat): seq<Action> {
    if count == 0 then []
    else Actions(script, count - 1) + if count - 1 < |script| then script[count - 1] else []
  }

  class TimeoutEventHandler {
    // Ordered by deadline, as the multimap is.
    var clocks: seq<Entry>
    var deadlines: seq<nat>
    var disconnected: set<nat>
    ghost var fired: seq<Firing>
    ghost var dropped: set<nat>

    /** Between steps no entry is marked used, and every timeout is accounted for. */
    ghost predicate Valid()
      reads this
    {
      && Sorted(clocks) && InOrder(clocks) && NoneUsed(clocks)
      && Accounted(clocks, deadlines, fired, dropped) && dropped <= disconnected
    }

    constructor ()
      ensures Valid() && clocks == [] && fired == [] && deadlines == [] && disconnected == {}
    {
      clocks, deadlines, disconnected, fired, dropped := [], [], {}, [], {};
    }

    /** Adds a timeout; its identity is the number of those before it. */
    method Add(deadline: nat) returns (id: nat)
      modifies this`clocks, this`deadlines
      ensures id == |old(deadlines)| && deadlines == old(deadlines) + [deadline]
      ensures clocks == Insert(old(clocks), Entry(deadline, id, false))
    {
      id := |deadlines|;
      clocks := Insert(clocks, Entry(deadline, id, false));
      deadlines := deadlines + [deadline];
    }

    method RegisterTimeoutReal(deadline: nat) returns (id: nat)
      requires Valid()
      modifies this`clocks, this`deadlines
      ensures Valid() && id == |old(deadlines)| && deadlines == old(deadlines) + [deadline]
      ensures clocks == Insert(old(clocks), Entry(deadline, id, false))
    {
      ghost var was := clocks;
      RegisterAccounted(clocks, deadlines, fired, dropped, deadline);
      id := Add(deadline);
      InsertSorted(was, Entry(deadline, id, false));
      IdentitiesBelow(was, old(deadlines), fired, dropped);
      InsertInOrder(was, Entry(deadline, id, false));
      InsertMembers(was, Entry(deadline, id, false));
    }

    method DisconnectTimeout(id: nat)
      requires Valid()
      modifies this`disconnected
      ensures Valid() && disconnected == old(disconnected) + {id}
    {
      disconnected := disconnected + {id};
    }

    /** First loop: the callbacks of due timeouts are taken out, disconnected later ones are erased. */
    method Collect(now: nat) returns (callbacks: seq<nat>)
      modifies this`clocks
      ensures callbacks == Due(old(clocks), now) && clocks == Marked(old(clocks), now, disconnected)
    {
      callbacks := [];
      ghost var was := clocks;
      // The iterator splits the queue into what it has passed and what lies ahead.
      var passed: seq<Entry>, ahead := [], clocks;
      while ahead != []
        invariant Due(was, now) == callbacks + Due(ahead, now)
        invariant Marked(was, now, disconnected) == passed + Marked(ahead, now, disconnected)
      {
        hide Due, Marked;
        CollectOne(ahead, now, disconnected);
        var timeout := ahead[0];
        if timeout.deadline <= now {
          callbacks := callbacks + [timeout.id];
          passed := passed + [timeout.(used := true)];
        } else if timeout.id !in disconnected {
          passed := passed + [timeout];
        }
        ahead := ahead[1..];
      }
      clocks := passed;
    }

    /** The queue after some actions, from what it was before them. */
    ghost predicate Acted(actions: seq<Action>, clocks0: seq<Entry>, deadlines0: seq<nat>, disconnected0: set<nat>)
      reads this
    {
      && clocks == InsertAll(clocks0, Registered(actions, |deadlines0|))
      && deadlines == deadlines0 + NewDeadlines(actions)
      && disconnected == disconnected0 + Disconnected(actions)
    }

    method Act(a: Action, ghost before: seq<Action>, ghost clocks0: seq<Entry>, ghost deadlines0: seq<nat>,
               ghost disconnected0: set<nat>)
      requires Acted(before, clocks0, deadlines0, disconnected0)
      modifies this`clocks, this`deadlines, this`disconnected
      ensures Acted(before + [a], clocks0, deadlines0, disconnected0)
    {
      hide Registered, NewDeadlines, InsertAll, Disconnected, Insert;
      RegisteredSnoc(before, a, |deadlines0|);
      DeadlinesSnoc(before, a);
      DisconnectedSnoc(before, a);
      match a {
        case Register(deadline) =>
          InsertAllSnoc(clocks0, Registered(before, |deadlines0|), Entry(deadline, |deadlines|, false));
          assert deadlines + [deadline] == deadlines0 + (NewDeadlines(before) + [deadline]);
          var id := Add(deadline);
        case Disconnect(id) =>
          assert Registered(before, |deadlines0|) + [] == Registered(before, |deadlines0|);
          assert NewDeadlines(before) + [] == NewDeadlines(before);
          disconnected := disconnected + {id};
      }
    }

    method ActAll(actions: seq<Action>, ghost before: seq<Action>, ghost clocks0: seq<Entry>,
                  ghost deadlines0: seq<nat>, ghost disconnected0: set<nat>)
      requires Acted(before, clocks0, deadlines0, disconnected0)
      modifies this`clocks, this`deadlines, this`disconnected
      ensures Acted(before + actions, clocks0, deadlines0, disconnected0)
    {
      var k := 0;
      assert before + actions[..0] == before;
      while k < |actions|
        invariant 0 <= k <= |actions| && Acted(before + actions[..k], clocks0, deadlines0, disconnected0)
      {
        hide Acted;
        Act(actions[k], before + actions[..k], clocks0, deadlines0, disconnected0);
        assert before + actions[..k] + [actions[k]] == before + actions[..k + 1];
        k := k + 1;
      }
      assert actions[..k] == actions;
    }

    /** The callbacks run one after the other; each may register and disconnect timeouts. */
    method RunCallbacks(callbacks: seq<nat>, script: seq<seq<Action>>, now: nat)
      modifies this`clocks, this`deadlines, this`disconnected, this`fired
      ensures fired == old(fired) + Firings(callbacks, now)
      ensures Acted(Actions(script, |callbacks|), old(clocks), old(deadlines), old(disconnected))
    {
      var k := 0;
      assert fired + Firings([], now) == fired && callbacks[..0] == [];
      assert Acted(Actions(script, 0), clocks, deadlines, disconnected) by { NoActions(clocks, deadlines); }
      hide Firings, Acted;
      while k < |callbacks|
        invariant 0 <= k <= |callbacks| && fired == old(fired) + Firings(callbacks[..k], now)
        invariant Acted(Actions(script, k), old(clocks), old(deadlines), old(disconnected))
      {
        FiringsSnoc(callbacks[..k], callbacks[k], now);
        assert callbacks[..k + 1] == callbacks[..k] + [callbacks[k]];
        var actions := if k < |script| then script[k] else [];
        ActAll(actions, Actions(script, k), old(clocks), old(deadlines), old(disconnected));
        fired := fired + [Firing(callbacks[k], now)];
        k := k + 1;
      }
      assert callbacks[..k] == callbacks;
    }

    /** Last loop: used entries up to the present are removed. */
    method Sweep(now: nat)
      requires Sorted(clocks) && UsedAreDue(clocks, now)
      modifies this`clocks
      ensures clocks == Unused(old(clocks))
    {
      hide Unused, Sorted, UsedAreDue;
      ghost var was := clocks;
      var passed: seq<Entry>, ahead := [], clocks;
      while ahead != [] && ahead[0].deadline <= now
        invariant Sorted(ahead) && UsedAreDue(ahead, now)
        invariant Unused(was) == passed + Unused(ahead)
        decreases |ahead|
      {
        var timeout := ahead[0];
        Tail(ahead, now);
        UnusedCons(timeout, ahead[1..]);
        if !timeout.used {
          Associate(passed, [timeout], Unused(ahead[1..]));
        } else {
          assert [] + Unused(ahead[1..]) == Unused(ahead[1..]);
        }
        if !timeout.used {
          passed := passed + [timeout];
        }
        ahead := ahead[1..];
      }
      NoneLeft(ahead, now);
      clocks := passed + ahead;
    }

    /** The three loops of a step, whatever the queue. */
    method FireAndSweep(now: nat, script: seq<seq<Action>>)
      requires var actions := Actions(script, |Due(clocks, now)|);
        var during := InsertAll(Marked(clocks, now, disconnected), Registered(actions, |deadlines|));
        Sorted(during) && UsedAreDue(during, now)
      modifies this`clocks, this`deadlines, this`disconnected, this`fired
      ensures fired == old(fired) + Firings(Due(old(clocks), now), now)
      ensures var actions := Actions(script, |Due(old(clocks), now)|);
        && clocks == Unused(InsertAll(Marked(old(clocks), now, old(disconnected)),
                                      Registered(actions, |old(deadlines)|)))
        && deadlines == old(deadlines) + NewDeadlines(actions)
        && disconnected == old(disconnected) + Disconnected(actions)
    {
      hide Accounted, Sorted, Insert, InsertAll, Marked, Kept, Due, Registered, NewDeadlines, Disconnected,
        Firings, Erased, Actions, Unused, NoneUsed, UsedAreDue;
      var callbacks := Collect(now);
      RunCallbacks(callbacks, script, now);
      Sweep(now);
    }

    /** One step of the reactor: exactly the timeouts that are due fire, in order and once each; what the
        callbacks register survives, as do the later timeouts that were not disconnected before. */
    method ReactorStep(now: nat, script: seq<seq<Action>>)
      requires Valid()
      modifies this
      ensures Valid()
      ensures fired == old(fired) + Firings(Due(old(clocks), now), now)
      ensures var actions := Actions(script, |Due(old(clocks), now)|);
        && clocks == InsertAll(Kept(old(clocks), now, old(disconnected)), Registered(actions, |old(deadlines)|))
        && deadlines == old(deadlines) + NewDeadlines(actions)
        && disconnected == old(disconnected) + Disconnected(actions)
      ensures FiredInOrder(fired, |old(fired)|, deadlines)
    {
      assert Erased(clocks, now, disconnected) <= disconnected;
      hide Accounted, Sorted, Insert, InsertAll, Marked, Kept, Due, Registered, NewDeadlines, Disconnected,
        Firings, Erased,
        Actions, Unused, NoneUsed, UsedAreDue, InOrder, FiredInOrder;
      FiringOrder(clocks, deadlines, NewDeadlines(Actions(script, |Due(clocks, now)|)), fired, dropped, now);
      StepOutcome(clocks, deadlines, fired, dropped, now, disconnected, Actions(script, |Due(clocks, now)|));
      dropped := dropped + Erased(clocks, now, disconnected);
      FireAndSweep(now, script);
    }
  }

  /** The queue and the account after a step in which the callbacks perform `actions`. */
  lemma StepOutcome(clocks: seq<Entry>, deadlines: seq<nat>, fired: seq<Firing>, dropped: set<nat>, now: nat,
                    disconnected: set<nat>, actions: seq<Action>)
    requires Sorted(clocks) && NoneUsed(clocks) && Accounted(clocks, deadlines, fired, dropped) && InOrder(clocks)
    ensures var news := Registered(actions, |deadlines|);
      var during, after := InsertAll(Marked(clocks, now, disconnected), news),
                           InsertAll(Kept(clocks, now, disconnected), news);
      && Sorted(during) && UsedAreDue(during, now) && Unused(during) == after
      && Sorted(after) && NoneUsed(after) && InOrder(after)
      && Accounted(after, deadlines + NewDeadlines(actions), fired + Firings(Due(clocks, now), now),
                   dropped + Erased(clocks, now, disconnected))
  {
    hide Accounted, Sorted, Insert, InsertAll, Marked, Kept, Due, Registered, NewDeadlines, Firings, Erased, Unused;
    var news := Registered(actions, |deadlines|);
    MarkedSorted(clocks, now, disconnected);
    UnusedMarked(clocks, now, disconnected);
    UnusedInsertAll(Marked(clocks, now, disconnected), news);
    InsertAllMembers(Marked(clocks, now, disconnected), news);
    KeptSorted(clocks, now, disconnected);
    InsertAllSorted(Kept(clocks, now, disconnected), news);
    StepAccounted(clocks, deadlines, fired, dropped, now, disconnected);
    KeptInOrder(clocks, now, disconnected);
    ActionsInOrder(Kept(clocks, now, disconnected), deadlines, fired + Firings(Due(clocks, now), now),
                   dropped + Erased(clocks, now, disconnected), actions);
    ActionsAccounted(Kept(clocks, now, disconnected), deadlines, fired + Firings(Due(clocks, now), now),
                     dropped + Erased(clocks, now, disconnected), actions);
  }

  /** An entry marked used is one that is due. */
  lemma Tail(s: seq<Entry>, now: nat)
    requires Sorted(s) && s != [] && UsedAreDue(s, now)
    ensures s == [s[0]] + s[1..] && Sorted(s[1..]) && UsedAreDue(s[1..], now)
  {
  }

  lemma ConsSorted(first: seq<Entry>, rest: seq<Entry>, bound: nat)
    requires |first| <= 1 && Sorted(rest) && (forall e <- rest :: bound <= e.deadline)
    requires first != [] ==> first[0].deadline == bound
    ensures Sorted(first + rest) && forall e <- first + rest :: bound <= e.deadline && (e in first || e in rest)
  {
    var all := first + rest;
    forall i, j | 0 <= i < j < |all| ensures all[i].deadline <= all[j].deadline {
      assert all[j] in rest;
    }
  }

  lemma {:induction false} MarkedSorted(s: seq<Entry>, now: nat, disconnected: set<nat>)
    requires Sorted(s) && NoneUsed(s)
    ensures Sorted(Marked(s, now, disconnected))
    ensures forall e <- Marked(s, now, disconnected) ::
              (e.used ==> e.deadline <= now) && (s != [] ==> s[0].deadline <= e.deadline)
  {
    if s != [] {
      assert s[0] in s && (|s| > 1 ==> s[0].deadline <= s[1].deadline && s[1..][0] == s[1]);
      MarkedSorted(s[1..], now, disconnected);
      CollectOne(s, now, disconnected);
      var rest := Marked(s[1..], now, disconnected);
      var first: seq<Entry> := if s[0].deadline <= now then [s[0].(used := true)]
                               else if s[0].id in disconnected then [] else [s[0]];
      hide Marked, Sorted;
      ConsSorted(first, rest, s[0].deadline);
    }
  }

  lemma {:induction false} KeptSorted(s: seq<Entry>, now: nat, disconnected: set<nat>)
    requires Sorted(s) && NoneUsed(s)
    ensures Sorted(Kept(s, now, disconnected)) && NoneUsed(Kept(s, now, disconnected))
    ensures forall e <- Kept(s, now, disconnected) :: s != [] ==> s[0].deadline <= e.deadline
  {
    if s != [] {
      assert s[0] in s && (|s| > 1 ==> s[0].deadline <= s[1].deadline && s[1..][0] == s[1]);
      KeptSorted(s[1..], now, disconnected);
      var rest := Kept(s[1..], now, disconnected);
      var first: seq<Entry> := if Stays(s[0], now, disconnected) then [s[0]] else [];
      assert Kept(s, now, disconnected) == first + rest;
      hide Kept, Sorted;
      ConsSorted(first, rest, s[0].deadline);
    }
  }

  lemma {:induction false} InsertAllMembers(s: seq<Entry>, es: seq<Entry>)
    ensures forall x :: x in InsertAll(s, es) <==> x in s || x in es
  {
    if es != [] {
      var most, last := es[..|es| - 1], es[|es| - 1];
      InsertAllMembers(s, most);
      InsertMembers(InsertAll(s, most), last);
      assert es == most + [last];
    }
  }

  lemma InsertAllSorted(s: seq<Entry>, es: seq<Entry>)
    requires Sorted(s) && NoneUsed(s) && NoneUsed(es)
    ensures Sorted(InsertAll(s, es)) && NoneUsed(InsertAll(s, es))
  {
    UnusedInsertAll(s, es);
    InsertAllMembers(s, es);
  }

  /** Behind the present nothing is used. */
  lemma {:induction false} NoneLeft(s: seq<Entry>, now: nat)
    requires Sorted(s) && (s != [] ==> s[0].deadline > now) && UsedAreDue(s, now)
    ensures Unused(s) == s
  {
    if s != [] {
      assert s[0] in s && (|s| > 1 ==> s[0].deadline <= s[1].deadline && s[1..][0] == s[1]);
      NoneLeft(s[1..], now);
      assert s == [s[0]] + s[1..];
    }
  }

  lemma CollectOne(s: seq<Entry>, now: nat, disconnected: set<nat>)
    requires s != []
    ensures Due(s, now) == (if s[0].deadline <= now then [s[0].id] else []) + Due(s[1..], now)
    ensures Marked(s, now, disconnected)
         == (if s[0].deadline <= now then [s[0].(used := true)] else if s[0].id in disconnected then [] else [s[0]])
            + Marked(s[1..], now, disconnected)
  {
  }

  lemma {:induction false} FiringsSnoc(ids: seq<nat>, id: nat, now: nat)
    ensures Firings(ids + [id], now) == Firings(ids, now) + [Firing(id, now)]
  {
    FiringsMembers(ids, now);
    FiringsMembers(ids + [id], now);
  }
}
