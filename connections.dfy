/** The list of connected clients, `clients` (main.c:130), kept head first
    as the C list is: `get_client` (main.c:132-155), `drop_client`
    (main.c:157-173), the accept branch of main's loop (main.c:441-454) and
    the pass over one ready client (main.c:460-489). */
module Connections {
  import opened CStrings
  import opened Outcomes
  import opened Clients

  /** No element appears twice. */
  predicate Distinct<T(==)>(xs: seq<T>)
  {
    forall i, j :: 0 <= i < j < |xs| ==> xs[i] != xs[j]
  }

  /** `xs` without its first occurrence of `x`: what unlinking the record
      the walk of `drop_client` reaches first leaves. */
  function Remove<T(==)>(xs: seq<T>, x: T): (r: seq<T>)
    ensures |r| == if x in xs then |xs| - 1 else |xs|
  {
    if |xs| == 0 then []
    else if xs[0] == x then xs[1..]
    else
      assert xs == [xs[0]] + xs[1..];
      [xs[0]] + Remove(xs[1..], x)
  }

  /** Exactly one occurrence of `x` goes, when there is one. */
  lemma {:induction false} RemoveMultiset<T>(xs: seq<T>, x: T)
    ensures multiset(Remove(xs, x)) == multiset(xs) - multiset{x}
  {
    if |xs| > 0 {
      assert xs == [xs[0]] + xs[1..];
      if xs[0] != x {
        RemoveMultiset(xs[1..], x);
      }
    }
  }

  /** Removing an element that is not there changes nothing. */
  lemma {:induction false} RemoveAbsent<T>(xs: seq<T>, x: T)
    requires x !in xs
    ensures Remove(xs, x) == xs
  {
    if |xs| > 0 {
      assert xs[0] in xs;
      assert forall y :: y in xs[1..] ==> y in xs;
      RemoveAbsent(xs[1..], x);
      assert xs == [xs[0]] + xs[1..];
    }
  }

  /** The first occurrence of `x`, at `i`, is the one that goes. */
  lemma {:induction false} RemoveAt<T>(xs: seq<T>, x: T, i: nat)
    requires i < |xs| && xs[i] == x && x !in xs[..i]
    ensures Remove(xs, x) == xs[..i] + xs[i + 1..]
    decreases i
  {
    if i > 0 {
      assert xs[0] == xs[..i][0];
      assert xs[1..][..i - 1] == xs[1..i];
      assert forall y :: y in xs[1..i] ==> y in xs[..i];
      RemoveAt(xs[1..], x, i - 1);
      assert xs[..i] == [xs[0]] + xs[1..i];
    }
  }

  /** Leaving out the element at `i` of a list without repeats leaves no
      repeats and every element but that one. */
  lemma WithoutIndex<T>(xs: seq<T>, i: nat)
    requires Distinct(xs) && i < |xs|
    ensures Distinct(xs[..i] + xs[i + 1..])
    ensures forall y :: y in xs[..i] + xs[i + 1..] <==> y in xs && y != xs[i]
  {
    var r := xs[..i] + xs[i + 1..];
    assert forall k :: 0 <= k < |r| ==> r[k] == xs[if k < i then k else k + 1];
    forall y | y in xs && y != xs[i] ensures y in r {
      var k :| 0 <= k < |xs| && xs[k] == y;
      assert y == r[if k < i then k else k - 1];
    }
  }

  /** In a list without repeats, removing `x` takes `x` out, keeps every
      other element and leaves no repeats. */
  lemma RemoveDistinct<T>(xs: seq<T>, x: T)
    requires Distinct(xs)
    ensures Distinct(Remove(xs, x))
    ensures forall y :: y in Remove(xs, x) <==> y in xs && y != x
  {
    if x !in xs {
      RemoveAbsent(xs, x);
    } else {
      var i :| 0 <= i < |xs| && xs[i] == x;
      RemoveAt(xs, x, i);
      WithoutIndex(xs, i);
    }
  }

  /** The first index at which `s` appears in `socks`: which record the walk
      of `get_client` stops at. */
  function IndexOf(socks: seq<int>, s: int): (r: Option<nat>)
    ensures r.Some? ==> r.value < |socks| && socks[r.value] == s
    ensures r.None? <==> s !in socks
  {
    if |socks| == 0 then None
    else if socks[0] == s then Some(0)
    else
      assert socks == [socks[0]] + socks[1..];
      match IndexOf(socks[1..], s)
      case None => None
      case Some(k) => Some(k + 1)
  }

  /** `IndexOf` finds the first occurrence. */
  lemma {:induction false} IndexOfFirst(socks: seq<int>, s: int)
    ensures IndexOf(socks, s).Some? ==> s !in socks[..IndexOf(socks, s).value]
  {
    if |socks| > 0 && socks[0] != s {
      IndexOfFirst(socks[1..], s);
      var r := IndexOf(socks[1..], s);
      if r.Some? {
        assert socks[..r.value + 1] == [socks[0]] + socks[1..][..r.value];
      }
    }
  }

  /** An occurrence with none before it is what `IndexOf` finds. */
  lemma {:induction false} IndexOfIs(socks: seq<int>, s: int, k: nat)
    requires k < |socks| && socks[k] == s && s !in socks[..k]
    ensures IndexOf(socks, s) == Some(k)
    decreases k
  {
    if k > 0 {
      assert socks[0] == socks[..k][0];
      assert socks[1..][..k - 1] == socks[1..k];
      assert forall y :: y in socks[1..k] ==> y in socks[..k];
      IndexOfIs(socks[1..], s, k - 1);
    }
  }

  /** The sockets of the records, in list order. */
  ghost function Sockets(cs: seq<Client>): (socks: seq<int>)
    reads set c | c in cs
    ensures |socks| == |cs|
    ensures forall i :: 0 <= i < |cs| ==> socks[i] == cs[i].socket
  {
    if |cs| == 0 then [] else [cs[0].socket] + Sockets(cs[1..])
  }

  class Registry {
    var clients: seq<Client>

    /** No record is linked twice, every record's buffer is consistent with
        its count, and no two records share a buffer. */
    ghost predicate Valid()
      reads this, set c | c in clients, set c | c in clients :: c.request
    {
      Distinct(clients) &&
      (forall c :: c in clients ==> c.Valid()) &&
      (forall c, d :: c in clients && d in clients && c != d ==> c.request != d.request)
    }

    /** `static struct client_info *clients = 0`. */
    constructor ()
      ensures clients == [] && Valid()
    {
      clients := [];
    }

    /** `get_client(s)`: the first record whose socket is `s`, or else a
        fresh zeroed record (socket 0) put at the head of the list. */
    method GetClient(s: int) returns (c: Client)
      requires Valid()
      modifies this
      ensures Valid() && c in clients
      ensures match IndexOf(old(Sockets(clients)), s)
              case Some(k) => c == old(clients)[k] && clients == old(clients)
              case None => fresh(c) && fresh(c.request) && clients == [c] + old(clients) &&
                           c.socket == 0 && c.received == 0 && c.Valid()
    {
      ghost var socks := Sockets(clients);
      var i := 0;
      while i < |clients| && clients[i].socket != s
        invariant i <= |clients|
        invariant s !in socks[..i]
      {
        assert socks[..i + 1] == socks[..i] + [socks[i]];
        i := i + 1;
      }
      if i < |clients| {
        IndexOfIs(socks, s, i);
        return clients[i];
      }
      assert socks[..i] == socks;
      c := new Client();
      clients := [c] + clients;
    }

    /** `drop_client(c)`: the record is unlinked from the list; a record
        that is not in the list ends the program, which `fatal` reports. */
    method DropClient(c: Client) returns (fatal: bool)
      requires Valid()
      modifies this
      ensures fatal <==> c !in old(clients)
      ensures clients == Remove(old(clients), c)
      ensures Valid() && c !in clients
      ensures forall x :: x in clients <==> x in old(clients) && x != c
    {
      var i := 0;
      while i < |clients| && clients[i] != c
        invariant i <= |clients| && c !in clients[..i]
      {
        assert clients[..i + 1] == clients[..i] + [clients[i]];
        i := i + 1;
      }
      RemoveDistinct(clients, c);
      if i == |clients| {
        assert clients[..i] == clients;
        RemoveAbsent(clients, c);
        return true;
      }
      RemoveAt(clients, c, i);
      clients := clients[..i] + clients[i + 1..];
      return false;
    }

    /** The accept branch of main's loop: a record is taken with
        `get_client(-1)` and given the accepted socket; an invalid socket
        ends the program, which `failed` reports. */
    method Accept(accepted: int) returns (c: Client, failed: bool)
      requires Valid()
      modifies this, set x | x in clients
      ensures Valid() && c in clients && c.socket == accepted
      ensures failed <==> accepted < 0
      ensures forall x :: x in old(clients) && x != c ==> x.socket == old(x.socket) && x.received == old(x.received)
      ensures match IndexOf(old(Sockets(clients)), -1)
              case Some(k) => c == old(clients)[k] && clients == old(clients)
              case None => fresh(c) && clients == [c] + old(clients) && c.received == 0 && c.Valid()
    {
      c := GetClient(-1);
      c.socket := accepted;
      failed := accepted < 0;
    }

    /** One pass of main's loop over a ready client: its buffer and count
        change as `StepEffect` says, and its record is dropped whenever it
        was answered or disconnected. */
    method Step(c: Client, chunk: seq<char>, spawns: bool) returns (o: Outcome)
      requires Valid() && c in clients
      requires |chunk| <= MaxRequestSize - c.received
      modifies this, c, c.request
      ensures var e := StepEffect(old(c.request[..]), old(c.received), chunk, spawns);
              o == e.outcome && c.request[..] == e.after && c.received == e.received
      ensures c.socket == old(c.socket)
      ensures clients == if Terminal(o) then Remove(old(clients), c) else old(clients)
      ensures Valid() && c.Valid() && (Terminal(o) ==> c !in clients)
    {
      ghost var buf := c.request[..];
      ghost var received := c.received;
      if c.received == MaxRequestSize {
        o := BadRequest;
      } else if |chunk| == 0 {
        o := Disconnected;
      } else {
        c.Append(chunk);
        if c.request[..5] == PostPrefix {
          o := c.HandlePost();
        } else {
          o := c.HandleGet(spawns);
        }
      }
      StepKeepsConsistent(buf, received, chunk, spawns);
      if Terminal(o) {
        var fatal := DropClient(c);
      }
    }
  }
}
