/** Queries over the messages table: a filter is a small expression over one
    message's fields, in the way the store's `.filter(...)` and
    `.withIndex(...)` conditions are, and `Where` keeps the messages it holds
    for, in table order. */
module MessageQuery {
  import opened Schema

  datatype Condition =
    | CreatedBefore(cutoff: Time)   // q.lt(q.field("_creationTime"), cutoff)
    | RoomIs(room: Id)              // withIndex("by_room", q => q.eq("roomId", room))
    | RoomIn(rooms: set<Id>)
    | IdIn(ids: set<Id>)

  /** A condition, or its negation. */
  datatype MessageFilter = Matching(c: Condition) | Not(c: Condition)

  predicate Satisfies(m: Message, c: Condition) {
    match c
    case CreatedBefore(cutoff) => m.creationTime < cutoff
    case RoomIs(r) => m.roomId == r
    case RoomIn(rs) => m.roomId in rs
    case IdIn(ids) => m.id in ids
  }

  predicate Holds(f: MessageFilter, m: Message) {
    match f
    case Matching(c) => Satisfies(m, c)
    case Not(c) => !Satisfies(m, c)
  }

  /** The messages of `ms` that `f` holds for, in the order of `ms`. */
  function Where(ms: seq<Message>, f: MessageFilter): (r: seq<Message>)
    ensures forall m :: m in r <==> m in ms && Holds(f, m)
    ensures |r| <= |ms|
  {
    if ms == [] then []
    else
      var last := ms[|ms| - 1];
      Where(ms[..|ms| - 1], f) + (if Holds(f, last) then [last] else [])
  }

  /** Filtering keeps the table order, so the result is in insertion order too. */
  lemma {:induction false} WhereIncreasing(ms: seq<Message>, f: MessageFilter)
    requires Increasing(ms)
    ensures Increasing(Where(ms, f))
  {
    if ms != [] {
      var init, last := ms[..|ms| - 1], ms[|ms| - 1];
      assert Increasing(init);
      WhereIncreasing(init, f);
      var w := Where(init, f);
      forall i | 0 <= i < |w| ensures w[i].id < last.id {
        assert w[i] in init;
        var k :| 0 <= k < |init| && init[k] == w[i];
        assert ms[k] == w[i];
      }
    }
  }

  /** Appending a message to the table appends it to every query it matches. */
  lemma WhereAppend(ms: seq<Message>, m: Message, f: MessageFilter)
    ensures Where(ms + [m], f) == Where(ms, f) + (if Holds(f, m) then [m] else [])
  {
    assert (ms + [m])[..|ms|] == ms;
  }

  /** Two filters that agree on every message of the table select the same messages. */
  lemma {:induction false} WhereAgree(ms: seq<Message>, f: MessageFilter, g: MessageFilter)
    requires forall m :: m in ms ==> Holds(f, m) == Holds(g, m)
    ensures Where(ms, f) == Where(ms, g)
  {
    if ms != [] {
      WhereAgree(ms[..|ms| - 1], f, g);
    }
  }

  /** Filtering twice is filtering once by a filter that holds exactly when both do. */
  lemma {:induction false} WhereTwice(ms: seq<Message>, f: MessageFilter, g: MessageFilter, h: MessageFilter)
    requires forall m :: m in ms ==> Holds(h, m) == (Holds(f, m) && Holds(g, m))
    ensures Where(Where(ms, f), g) == Where(ms, h)
  {
    if ms != [] {
      var init, last := ms[..|ms| - 1], ms[|ms| - 1];
      assert ms == init + [last];
      assert forall m :: m in init ==> m in ms;
      WhereTwice(init, f, g, h);
      assert Holds(h, last) == (Holds(f, last) && Holds(g, last));
      assert Where(ms, h) == Where(init, h) + (if Holds(h, last) then [last] else []);
      if Holds(f, last) {
        assert Where(ms, f) == Where(init, f) + [last];
        WhereAppend(Where(init, f), last, g);
      } else {
        assert Where(ms, f) == Where(init, f);
      }
    }
  }

  /** A filter that holds for every message changes nothing. */
  lemma {:induction false} WhereAll(ms: seq<Message>, f: MessageFilter)
    requires forall m :: m in ms ==> Holds(f, m)
    ensures Where(ms, f) == ms
  {
    if ms != [] {
      var init, last := ms[..|ms| - 1], ms[|ms| - 1];
      assert ms == init + [last];
      assert forall m :: m in init ==> m in ms;
      WhereAll(init, f);
      assert Holds(f, last);
    }
  }

  /** Deleting, by id, exactly the messages a query selected leaves the
      messages it did not select; this relies on ids being unique. */
  lemma DeleteSelected(ms: seq<Message>, c: Condition)
    requires Increasing(ms)
    ensures Where(ms, Not(IdIn(IdsOf(Where(ms, Matching(c)))))) == Where(ms, Not(c))
  {
    var chosen := Where(ms, Matching(c));
    forall m | m in ms ensures Holds(Not(IdIn(IdsOf(chosen))), m) == Holds(Not(c), m) {
      if m.id in IdsOf(chosen) {
        var m' :| m' in chosen && m'.id == m.id;
        IncreasingIdentifies(ms, m, m');
      }
    }
    WhereAgree(ms, Not(IdIn(IdsOf(chosen))), Not(c));
  }
}
