/** Where a tick that is not safe goes wrong: the first call, of the first callback, that cancels a
    timer still waiting its turn. Up to it the tick is like that of a safe reaction. */
module UnsafeTick {
  import opened TimerSpec
  import Lists

  /** `call`, made by the callback of `order[i]`, cancels a timer that comes later. */
  predicate CancelsLater(order: seq<TimerId>, i: nat, call: Action)
    requires i < |order|
  {
    call.Cancel? && call.id in order[i + 1..]
  }

  predicate Offends(order: seq<TimerId>, react: Reaction, i: nat)
    requires i < |order|
  {
    exists a :: 0 <= a < |react(order[i])| && CancelsLater(order, i, react(order[i])[a])
  }

  lemma SomeOffends(order: seq<TimerId>, react: Reaction) returns (i: nat)
    requires !SafeOrder(order, react)
    ensures i < |order| && Offends(order, react, i)
  {
    var p, j :| 0 <= p < j < |order| && Cancel(order[j]) in react(order[p]);
    var a :| 0 <= a < |react(order[p])| && react(order[p])[a] == Cancel(order[j]);
    assert order[p + 1..][j - p - 1] == order[j];
    assert CancelsLater(order, p, react(order[p])[a]);
    i := p;
  }

  /** The first callback, from `i` on, that offends. */
  function FirstOffender(order: seq<TimerId>, react: Reaction, i: nat): (r: nat)
    requires exists p :: i <= p < |order| && Offends(order, react, p)
    ensures i <= r < |order| && Offends(order, react, r)
    ensures forall p :: i <= p < r ==> !Offends(order, react, p)
    decreases |order| - i
  {
    if Offends(order, react, i) then i else FirstOffender(order, react, i + 1)
  }

  /** Its first call, from `a` on, that does. */
  function FirstOffence(order: seq<TimerId>, i: nat, calls: seq<Action>, a: nat): (r: nat)
    requires i < |order| && exists c :: a <= c < |calls| && CancelsLater(order, i, calls[c])
    ensures a <= r < |calls| && CancelsLater(order, i, calls[r])
    ensures forall c :: a <= c < r ==> !CancelsLater(order, i, calls[c])
    decreases |calls| - a
  {
    if CancelsLater(order, i, calls[a]) then a else FirstOffence(order, i, calls, a + 1)
  }

  /** The same callbacks, cut off before call `a` of callback `i`. */
  function Cut(order: seq<TimerId>, react: Reaction, i: nat, a: nat): Reaction
    requires i < |order| && a <= |react(order[i])|
  {
    (id: TimerId) => if id in order[..i] then react(id) else if id == order[i] then react(order[i])[..a] else []
  }

  /** Call `a` of callback `i` is the first that offends. */
  predicate FirstWrong(order: seq<TimerId>, react: Reaction, i: nat, a: nat) {
    && i < |order| && a < |react(order[i])| && CancelsLater(order, i, react(order[i])[a])
    && (forall p :: 0 <= p < i ==> !Offends(order, react, p))
    && (forall c :: 0 <= c < a ==> !CancelsLater(order, i, react(order[i])[c]))
  }

  lemma NotLater(order: seq<TimerId>, i: nat, j: nat, calls: seq<Action>)
    requires i < j < |order| && forall c :: 0 <= c < |calls| ==> !CancelsLater(order, i, calls[c])
    ensures Cancel(order[j]) !in calls
  {
    assert order[i + 1..][j - i - 1] == order[j];
  }

  lemma CutAt(order: seq<TimerId>, react: Reaction, i: nat, a: nat, p: nat)
    requires Lists.Distinct(order) && i < |order| && a <= |react(order[i])| && p < |order|
    ensures Cut(order, react, i, a)(order[p]) ==
            if p < i then react(order[p]) else if p == i then react(order[i])[..a] else []
  {
    if p < i { assert order[..i][p] == order[p]; }
  }

  lemma CutIsSafe(order: seq<TimerId>, react: Reaction, i: nat, a: nat)
    requires Lists.Distinct(order) && FirstWrong(order, react, i, a)
    ensures SafeOrder(order, Cut(order, react, i, a))
  {
    hide Cut;
    hide CancelsLater;
    forall p, j | 0 <= p < j < |order|
      ensures Cancel(order[j]) !in Cut(order, react, i, a)(order[p])
    {
      CutAt(order, react, i, a, p);
      if p < i {
        assert !Offends(order, react, p);
        NotLater(order, p, j, react(order[p]));
      } else if p == i {
        NotLater(order, p, j, react(order[i])[..a]);
      }
    }
  }

  /** Before callback `i` it makes no difference. */
  lemma {:induction false} CutFires(m: Model, order: seq<TimerId>, react: Reaction, i: nat, a: nat, k: nat)
    requires Lists.Distinct(order) && i < |order| && a <= |react(order[i])| && k <= i
    ensures FireAll(m, order[..k], Cut(order, react, i, a)) == FireAll(m, order[..k], react)
  {
    hide Cut;
    if k > 0 {
      CutFires(m, order, react, i, a, k - 1);
      assert order[..k][..k - 1] == order[..k - 1];
      CutAt(order, react, i, a, k - 1);
    }
  }

  /** The calls that are safe to make cancel nobody who is waiting. */
  lemma SafePart(order: seq<TimerId>, react: Reaction, i: nat, a: nat, c: TimerId)
    requires FirstWrong(order, react, i, a) && c in order[i + 1..]
    ensures Cancel(c) !in react(order[i])[..a]
  {
    var j :| 0 <= j < |order[i + 1..]| && order[i + 1..][j] == c;
    NotLater(order, i, i + 1 + j, react(order[i])[..a]);
  }
}
