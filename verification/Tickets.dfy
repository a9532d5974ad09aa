/** Numbered tickets: each is issued once, held by one thread, and filed when the
    thread's call returns. */
module Tickets {
  datatype Ticket = NoTicket | Ticket(number: nat)

  /** Each of the first `n` tickets is held or filed, and none of them twice. */
  ghost predicate EachOnce(held: seq<Ticket>, filed: seq<Ticket>, n: nat) {
    && (forall t :: 0 <= t < |held| && held[t].Ticket? ==> held[t].number < n)
    && (forall k :: 0 <= k < |filed| && filed[k].Ticket? ==> filed[k].number < n)
    && (forall t, u :: 0 <= t < u < |held| && held[t].Ticket? ==> held[t] != held[u])
    && (forall k, l :: 0 <= k < l < |filed| && filed[k].Ticket? ==> filed[k] != filed[l])
    && (forall t, k :: 0 <= t < |held| && 0 <= k < |filed| && held[t].Ticket? ==> held[t] != filed[k])
    && (forall i: nat :: i < n ==> Ticket(i) in held || Ticket(i) in filed)
  }

  lemma Issue(held: seq<Ticket>, filed: seq<Ticket>, n: nat, t: nat)
    requires EachOnce(held, filed, n) && t < |held| && held[t] == NoTicket
    ensures EachOnce(held[t := Ticket(n)], filed, n + 1)
  {
    var next := held[t := Ticket(n)];
    assert next[t] == Ticket(n);
    forall i: nat | i < n && Ticket(i) in held
      ensures Ticket(i) in next
    {
      var u :| 0 <= u < |held| && held[u] == Ticket(i);
      assert next[u] == Ticket(i);
    }
  }

  lemma File(held: seq<Ticket>, filed: seq<Ticket>, n: nat, t: nat)
    requires EachOnce(held, filed, n) && t < |held| && held[t].Ticket?
    ensures EachOnce(held[t := NoTicket], filed + [held[t]], n)
  {
    var next, filed' := held[t := NoTicket], filed + [held[t]];
    assert filed'[|filed|] == held[t];
    forall i: nat | i < n && i != held[t].number && Ticket(i) in held
      ensures Ticket(i) in next
    {
      var u :| 0 <= u < |held| && held[u] == Ticket(i);
      assert next[u] == Ticket(i);
    }
  }

  /** A call that returns without a ticket. */
  lemma FileNothing(held: seq<Ticket>, filed: seq<Ticket>, n: nat)
    requires EachOnce(held, filed, n)
    ensures EachOnce(held, filed + [NoTicket], n)
  {}
}
