/** The accept loop's bookkeeping on `waiting_clients`: every accepted
    connection joins the queue, and as soon as two are waiting the two oldest
    leave it as the players of a new game. */
module Pairing {
  import opened Options

  /** An accepted connection, known only by its identity. */
  type ConnId = nat

  /** The two connections of one game, player 1 first. */
  type Game = (ConnId, ConnId)

  /** The games started and the connections left waiting once the given
      connections have arrived, in order, at an empty queue. */
  function PairUp(arrivals: seq<ConnId>): (seq<Game>, seq<ConnId>) {
    if arrivals == [] then ([], [])
    else
      var (games, waiting) := PairUp(arrivals[..|arrivals| - 1]);
      var queue := waiting + [arrivals[|arrivals| - 1]];
      if |queue| >= 2 then (games + [(queue[0], queue[1])], queue[2..]) else (games, queue)
  }

  /** Pairing is FIFO: game `k` is arrivals `2k` and `2k + 1`, and at most the
      latest arrival is left waiting. */
  lemma {:induction false} PairUpInOrder(arrivals: seq<ConnId>)
    ensures var (games, waiting) := PairUp(arrivals);
      && |waiting| <= 1
      && |arrivals| == 2 * |games| + |waiting|
      && waiting == arrivals[2 * |games|..]
      && forall k :: 0 <= k < |games| ==> games[k] == (arrivals[2 * k], arrivals[2 * k + 1])
  {
    if arrivals != [] {
      var last := |arrivals| - 1;
      var init := arrivals[..last];
      PairUpInOrder(init);
      var (games, waiting) := PairUp(init);
      var queue := waiting + [arrivals[last]];
      assert forall i :: 0 <= i < last ==> init[i] == arrivals[i];
      if |waiting| == 1 {
        assert queue == [arrivals[last - 1], arrivals[last]];
        var games' := games + [(queue[0], queue[1])];
        forall k | 0 <= k < |games'|
          ensures games'[k] == (arrivals[2 * k], arrivals[2 * k + 1])
        {
          if k < |games| {
            assert games'[k] == games[k];
          }
        }
      } else {
        assert queue == arrivals[2 * |games|..];
      }
    }
  }

  /** Connections that are all different never end up in two games, nor twice
      in one, nor both in a game and waiting. */
  lemma NoClientInTwoGames(arrivals: seq<ConnId>)
    requires forall i, j :: 0 <= i < j < |arrivals| ==> arrivals[i] != arrivals[j]
    ensures var (games, waiting) := PairUp(arrivals);
      && (forall k :: 0 <= k < |games| ==> games[k].0 != games[k].1)
      && (forall j, k :: 0 <= j < k < |games| ==>
            games[j].0 != games[k].0 && games[j].0 != games[k].1 &&
            games[j].1 != games[k].0 && games[j].1 != games[k].1)
      && (forall c, k :: c in waiting && 0 <= k < |games| ==> c != games[k].0 && c != games[k].1)
  {
    PairUpInOrder(arrivals);
    var (games, waiting) := PairUp(arrivals);
    forall c, k | c in waiting && 0 <= k < |games|
      ensures c != games[k].0 && c != games[k].1
    {
      var i :| 2 * |games| <= i < |arrivals| && arrivals[i] == c;
    }
  }

  /** The module-level `waiting_clients` list, with the history of arrivals and
      of the games started kept as ghost state. */
  class Dispatcher {
    var waiting: seq<ConnId>
    ghost var arrived: seq<ConnId>
    ghost var games: seq<Game>

    ghost predicate Valid()
      reads this
    {
      PairUp(arrived) == (games, waiting) && |waiting| <= 1
    }

    constructor ()
      ensures Valid() && arrived == [] && games == [] && waiting == []
    {
      waiting := [];
      arrived := [];
      games := [];
    }

    /** One accepted connection: append it, and if two or more are waiting
        pop the two oldest as the players of a new game. */
    method Arrive(c: ConnId) returns (game: Option<Game>)
      requires Valid()
      modifies this
      ensures Valid()
      ensures arrived == old(arrived) + [c]
      ensures |old(waiting)| == 0 ==> game == None && waiting == [c] && games == old(games)
      ensures |old(waiting)| == 1 ==>
        game == Some((old(waiting)[0], c)) && waiting == [] && games == old(games) + [game.value]
    {
      PairUpInOrder(arrived);
      waiting := waiting + [c];
      if |waiting| >= 2 {
        var s1 := waiting[0];
        waiting := waiting[1..];
        var s2 := waiting[0];
        waiting := waiting[1..];
        game := Some((s1, s2));
        games := games + [(s1, s2)];
      } else {
        game := None;
      }
      arrived := arrived + [c];
      assert arrived[..|arrived| - 1] == old(arrived);
      PairUpInOrder(arrived);
    }
  }

  /** The accept loop over a finite run of accepted connections, starting a
      game for every pair it forms (the game thread itself is left out). */
  method ServeArrivals(arrivals: seq<ConnId>) returns (started: seq<Game>)
    ensures started == PairUp(arrivals).0
    ensures 2 * |started| <= |arrivals| <= 2 * |started| + 1
    ensures forall k :: 0 <= k < |started| ==> started[k] == (arrivals[2 * k], arrivals[2 * k + 1])
  {
    var dispatcher := new Dispatcher();
    started := [];
    for i := 0 to |arrivals|
      invariant dispatcher.Valid()
      invariant dispatcher.arrived == arrivals[..i]
      invariant dispatcher.games == started
    {
      var game := dispatcher.Arrive(arrivals[i]);
      if game.Some? {
        started := started + [game.value];
      }
    }
    assert arrivals[..|arrivals|] == arrivals;
    PairUpInOrder(arrivals);
  }
}
