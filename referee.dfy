/** `play_game`: the server's referee for one game of War between two peers.
    The sockets become, per peer, the chunks that peer's socket delivers
    (for reading) and the frames sent to it (for `sendall`); killing the game
    and the final close become the session's ending. */
module Referee {
  import opened Options
  import opened Cards
  import opened Wire

  const ROUNDS: nat := 26

  datatype Ending = Completed | Killed

  /** What a game leaves behind: the frames sent to each peer, in order, and
      whether the game ran its 26 rounds or was killed. */
  datatype Session = Session(sent1: seq<Frame>, sent2: seq<Frame>, ending: Ending)

  /** Each player's result for one round: higher rank wins, equal ranks draw. */
  function RoundResults(card1: int, card2: int): (results: (Result, Result))
    ensures results.1 == results.0.Opposite()
    ensures results.0 == Win <==> Rank(card1) > Rank(card2)
    ensures results.0 == Lose <==> Rank(card1) < Rank(card2)
  {
    var cmp := CompareCards(card1, card2);
    if cmp == 1 then (Win, Lose)
    else if cmp == -1 then (Lose, Win)
    else (Draw, Draw)
  }

  /** An accepted round: what is left of both hands and each player's result. */
  datatype RoundOutcome = RoundOutcome(left1: set<int>, left2: set<int>, result1: Result, result2: Result)

  /** One round of the referee against the two authoritative remaining hands:
      both messages must be PLAYCARD and each card must still be in its
      owner's hand; then exactly those two cards leave the hands. */
  function PlayRound(m1: Msg, m2: Msg, remaining1: set<int>, remaining2: set<int>): (o: Option<RoundOutcome>)
    ensures o.Some? <==>
      m1.cmd == PlayCard.Value() && m2.cmd == PlayCard.Value() &&
      m1.payload in remaining1 && m2.payload in remaining2
  {
    var (c1Cmd, c1) := (m1.cmd, m1.payload);
    var (c2Cmd, c2) := (m2.cmd, m2.payload);
    if c1Cmd != PlayCard.Value() || c2Cmd != PlayCard.Value() then None
    else if c1 !in remaining1 || c2 !in remaining2 then None
    else
      var (res1, res2) := RoundResults(c1, c2);
      Some(RoundOutcome(remaining1 - {c1}, remaining2 - {c2}, res1, res2))
  }

  /** An accepted round takes exactly the two played cards out of the hands,
      one card each, and hands out the results of comparing them. */
  lemma RoundRemovesPlayedCards(m1: Msg, m2: Msg, remaining1: set<int>, remaining2: set<int>)
    ensures var o := PlayRound(m1, m2, remaining1, remaining2);
      o.Some? ==>
        && o.value.left1 + {m1.payload} == remaining1 && m1.payload !in o.value.left1
        && o.value.left2 + {m2.payload} == remaining2 && m2.payload !in o.value.left2
        && |o.value.left1| == |remaining1| - 1 && |o.value.left2| == |remaining2| - 1
        && (o.value.result1, o.value.result2) == RoundResults(m1.payload, m2.payload)
  {
  }

  /** What the rounds still to play produce: the result frames sent to each
      peer, whether all of them were played, and the hands left at the end. */
  datatype Rounds = Rounds(results1: seq<Frame>, results2: seq<Frame>, finished: bool,
                           left1: set<int>, left2: set<int>)

  /** `n` more rounds over the peers' remaining messages. */
  function PlayRounds(m1: seq<Msg>, m2: seq<Msg>, n: nat, remaining1: set<int>, remaining2: set<int>): Rounds
    decreases n
  {
    if n == 0 then Rounds([], [], true, remaining1, remaining2)
    else if m1 == [] || m2 == [] then Rounds([], [], false, remaining1, remaining2)
    else
      match PlayRound(m1[0], m2[0], remaining1, remaining2)
      case None => Rounds([], [], false, remaining1, remaining2)
      case Some(o) =>
        var next := PlayRounds(m1[1..], m2[1..], n - 1, o.left1, o.left2);
        next.(results1 := [PlayResultFrame(o.result1)] + next.results1,
              results2 := [PlayResultFrame(o.result2)] + next.results2)
  }

  /** The session once `sent1` and `sent2` have been sent and `rounds` follow. */
  function Continue(sent1: seq<Frame>, sent2: seq<Frame>, rounds: Rounds): Session {
    Session(sent1 + rounds.results1, sent2 + rounds.results2,
            if rounds.finished then Completed else Killed)
  }

  /** Whether a peer's first message is WANTGAME with payload 0. */
  predicate WantsGame(msgs: seq<Msg>) {
    |msgs| > 0 && msgs[0].cmd == WantGame.Value() && msgs[0].payload == 0
  }

  /** The whole game, given everything each peer sends before closing and the
      shuffled deck: the specification that PlayGame implements. */
  function Serve(in1: seq<byte>, in2: seq<byte>, deck: seq<int>): Session
    requires IsShuffledDeck(deck)
  {
    var m1, m2 := Messages(in1), Messages(in2);
    if !WantsGame(m1) || !WantsGame(m2) then Session([], [], Killed)
    else
      var (hand1, hand2) := DealCards(deck);
      Continue([GameStartFrame(hand1)], [GameStartFrame(hand2)],
               PlayRounds(m1[1..], m2[1..], ROUNDS, Elements(hand1), Elements(hand2)))
  }

  /** The result frames of a round go out before those of the rounds after it. */
  lemma ContinueAfterRound(sent1: seq<Frame>, sent2: seq<Frame>, f1: Frame, f2: Frame, next: Rounds)
    ensures Continue(sent1, sent2, next.(results1 := [f1] + next.results1, results2 := [f2] + next.results2))
         == Continue(sent1 + [f1], sent2 + [f2], next)
  {
    assert sent1 + ([f1] + next.results1) == sent1 + [f1] + next.results1;
    assert sent2 + ([f2] + next.results2) == sent2 + [f2] + next.results2;
  }

  /** One step of PlayRounds when both peers have a message. */
  lemma PlayRoundsStep(m1: seq<Msg>, m2: seq<Msg>, n: nat, remaining1: set<int>, remaining2: set<int>)
    requires n > 0 && m1 != [] && m2 != []
    ensures var o := PlayRound(m1[0], m2[0], remaining1, remaining2);
      && (o.None? ==> PlayRounds(m1, m2, n, remaining1, remaining2) == Rounds([], [], false, remaining1, remaining2))
      && (o.Some? ==>
            var next := PlayRounds(m1[1..], m2[1..], n - 1, o.value.left1, o.value.left2);
            PlayRounds(m1, m2, n, remaining1, remaining2) ==
              next.(results1 := [PlayResultFrame(o.value.result1)] + next.results1,
                    results2 := [PlayResultFrame(o.value.result2)] + next.results2))
  {
  }

  /** One round of the game in terms of the bytes each peer still has to send:
      a peer that closes before a whole message, or a rejected round, kills
      the game; an accepted round sends both results and continues. */
  lemma SessionStep(sent1: seq<Frame>, sent2: seq<Frame>, in1: seq<byte>, in2: seq<byte>,
                    n: nat, remaining1: set<int>, remaining2: set<int>)
    requires n > 0
    ensures var game := Continue(sent1, sent2, PlayRounds(Messages(in1), Messages(in2), n, remaining1, remaining2));
      if |in1| < 2 || |in2| < 2 then game == Session(sent1, sent2, Killed)
      else
        var (m1, m2) := (Msg(in1[0], in1[1]), Msg(in2[0], in2[1]));
        match PlayRound(m1, m2, remaining1, remaining2)
        case None => game == Session(sent1, sent2, Killed)
        case Some(o) =>
          game == Continue(sent1 + [PlayResultFrame(o.result1)], sent2 + [PlayResultFrame(o.result2)],
                           PlayRounds(Messages(in1[2..]), Messages(in2[2..]), n - 1, o.left1, o.left2))
  {
    if |in1| >= 2 && |in2| >= 2 {
      MessagesSplit(in1);
      MessagesSplit(in2);
      var (m1, m2) := (Messages(in1), Messages(in2));
      assert m1[1..] == Messages(in1[2..]) && m2[1..] == Messages(in2[2..]);
      PlayRoundsStep(m1, m2, n, remaining1, remaining2);
      var o := PlayRound(m1[0], m2[0], remaining1, remaining2);
      if o.Some? {
        ContinueAfterRound(sent1, sent2, PlayResultFrame(o.value.result1), PlayResultFrame(o.value.result2),
                           PlayRounds(m1[1..], m2[1..], n - 1, o.value.left1, o.value.left2));
      }
    }
  }

  /** Reading the first whole message of a peer's input leaves the rest. */
  lemma MessagesSplit(bytes: seq<byte>)
    requires |bytes| >= 2
    ensures Messages(bytes) == [Msg(bytes[0], bytes[1])] + Messages(bytes[2..])
  {
  }

  /** A game both peers asked for: GAMESTART to each, then the 26 rounds over
      the messages after WANTGAME. */
  lemma ServeStarted(in1: seq<byte>, in2: seq<byte>, deck: seq<int>)
    requires IsShuffledDeck(deck)
    requires WantsGame(Messages(in1)) && WantsGame(Messages(in2))
    ensures var (hand1, hand2) := DealCards(deck);
      Serve(in1, in2, deck) ==
        Continue([GameStartFrame(hand1)], [GameStartFrame(hand2)],
                 PlayRounds(Messages(in1[2..]), Messages(in2[2..]), ROUNDS, Elements(hand1), Elements(hand2)))
  {
    MessagesSplit(in1);
    MessagesSplit(in2);
  }

  /** One pass of the WANTGAME loop: read a peer's first message and accept
      it only if it is WANTGAME with payload 0. */
  method AwaitWantGame(stream: seq<Chunk>) returns (ok: bool, rest: seq<Chunk>)
    ensures ok <==> WantsGame(Messages(Received(stream)))
    ensures ok ==> Received(rest) == Received(stream)[2..]
  {
    var r: ReadOutcome;
    r, rest := ReadExactly(stream, 2);
    if r.EndOfStream? {
      return false, rest;
    }
    MessagesSplit(Received(stream));
    var cmd, payload := r.data[0], r.data[1];
    ok := cmd == WantGame.Value() && payload == 0;
  }

  /** `play_game`: both WANTGAME messages, the deal and GAMESTART to each peer,
      then 26 rounds of reading two PLAYCARD messages, checking them against
      the remaining hands and sending each peer its PLAYRESULT; any bad read
      or message kills the game. */
  method PlayGame(stream1: seq<Chunk>, stream2: seq<Chunk>, deck: seq<int>) returns (s: Session)
    requires IsShuffledDeck(deck)
    ensures s == Serve(Received(stream1), Received(stream2), deck)
  {
    ghost var in1, in2 := Received(stream1), Received(stream2);
    var rest1, rest2 := stream1, stream2;
    var ok: bool;
    ok, rest1 := AwaitWantGame(rest1);
    if !ok {
      return Session([], [], Killed);
    }
    ok, rest2 := AwaitWantGame(rest2);
    if !ok {
      return Session([], [], Killed);
    }

    var (hand1, hand2) := DealCards(deck);
    var sent1 := [GameStartFrame(hand1)];
    var sent2 := [GameStartFrame(hand2)];
    var remaining1, remaining2 := Elements(hand1), Elements(hand2);
    ghost var game := Serve(in1, in2, deck);
    ServeStarted(in1, in2, deck);

    for i := 0 to ROUNDS
      invariant game ==
        Continue(sent1, sent2, PlayRounds(Messages(Received(rest1)), Messages(Received(rest2)),
                                          ROUNDS - i, remaining1, remaining2))
    {
      ghost var before1, before2 := Received(rest1), Received(rest2);
      SessionStep(sent1, sent2, before1, before2, ROUNDS - i, remaining1, remaining2);
      var r1, r2: ReadOutcome;
      r1, rest1 := ReadExactly(rest1, 2);
      if r1.EndOfStream? {
        return Session(sent1, sent2, Killed);
      }
      r2, rest2 := ReadExactly(rest2, 2);
      if r2.EndOfStream? {
        return Session(sent1, sent2, Killed);
      }
      var c1Cmd, c1 := r1.data[0], r1.data[1];
      var c2Cmd, c2 := r2.data[0], r2.data[1];
      if c1Cmd != PlayCard.Value() || c2Cmd != PlayCard.Value() {
        return Session(sent1, sent2, Killed);
      }
      if c1 !in remaining1 || c2 !in remaining2 {
        return Session(sent1, sent2, Killed);
      }
      ghost var o := PlayRound(Msg(c1Cmd, c1), Msg(c2Cmd, c2), remaining1, remaining2).value;
      assert before1[2..] == Received(rest1) && before2[2..] == Received(rest2);
      remaining1 := remaining1 - {c1};
      remaining2 := remaining2 - {c2};

      var cmp := CompareCards(c1, c2);
      var res1, res2;
      if cmp == 1 {
        res1, res2 := Win, Lose;
      } else if cmp == -1 {
        res1, res2 := Lose, Win;
      } else {
        res1, res2 := Draw, Draw;
      }
      assert o == RoundOutcome(remaining1, remaining2, res1, res2);
      sent1 := sent1 + [PlayResultFrame(res1)];
      sent2 := sent2 + [PlayResultFrame(res2)];
    }
    s := Session(sent1, sent2, Completed);
  }

  // Properties of the referee

  /** A peer's first message is WANTGAME(0) exactly when its first two bytes are 0, 0. */
  lemma WantsGameBytes(bytes: seq<byte>)
    ensures WantsGame(Messages(bytes)) <==> |bytes| >= 2 && bytes[..2] == [WantGame.Value(), 0]
  {
    if |bytes| >= 2 {
      MessagesSplit(bytes);
    }
  }

  /** No GAMESTART, and nothing else, is sent unless both peers' first two
      bytes are exactly 0, 0; when they are, both peers get their GAMESTART. */
  lemma GameStartOnlyAfterWantGame(in1: seq<byte>, in2: seq<byte>, deck: seq<int>)
    requires IsShuffledDeck(deck)
    ensures var s := Serve(in1, in2, deck);
      && (s.sent1 != [] <==> |in1| >= 2 && in1[..2] == [0, 0] && |in2| >= 2 && in2[..2] == [0, 0])
      && (s.sent2 != [] <==> s.sent1 != [])
      && (s.sent1 == [] ==> s == Session([], [], Killed))
  {
    WantsGameBytes(in1);
    WantsGameBytes(in2);
  }

  /** Each peer's GAMESTART is 27 bytes: command 1 and then that peer's own
      dealt hand, none of whose cards is the opponent's. */
  lemma GameStartCarriesOwnHand(in1: seq<byte>, in2: seq<byte>, deck: seq<int>)
    requires IsShuffledDeck(deck)
    ensures var s := Serve(in1, in2, deck);
      var (hand1, hand2) := DealCards(deck);
      s.sent1 != [] ==>
        && |s.sent1[0]| == 27 && |s.sent2[0]| == 27
        && s.sent1[0][0] == GameStart.Value() && s.sent2[0][0] == GameStart.Value()
        && s.sent1[0][1..] == hand1 && s.sent2[0][1..] == hand2
        && Elements(s.sent1[0][1..]) !! Elements(hand2)
        && Elements(s.sent2[0][1..]) !! Elements(hand1)
  {
    DealPartitionsDeck(deck);
  }

  /** One result frame per peer per accepted round: a finished run of `n`
      rounds has sent `n`, and there are never more than messages read. */
  lemma {:induction false} RoundsCount(m1: seq<Msg>, m2: seq<Msg>, n: nat, remaining1: set<int>, remaining2: set<int>)
    ensures var r := PlayRounds(m1, m2, n, remaining1, remaining2);
      && |r.results1| == |r.results2| <= n
      && |r.results1| <= |m1| && |r.results1| <= |m2|
      && (r.finished ==> |r.results1| == n)
    decreases n
  {
    if n > 0 && m1 != [] && m2 != [] {
      var o := PlayRound(m1[0], m2[0], remaining1, remaining2);
      if o.Some? {
        RoundsCount(m1[1..], m2[1..], n - 1, o.value.left1, o.value.left2);
      }
    }
  }

  /** The result frames of the rounds played: round `k`'s is a 2-byte
      PLAYRESULT, complementary to the opponent's, and computed from the two
      cards of that round. */
  lemma {:induction false} RoundResultAt(m1: seq<Msg>, m2: seq<Msg>, n: nat, remaining1: set<int>, remaining2: set<int>, k: nat)
    requires k < |PlayRounds(m1, m2, n, remaining1, remaining2).results1|
    ensures var r := PlayRounds(m1, m2, n, remaining1, remaining2);
      && k < |m1| && k < |m2| && k < |r.results2|
      && r.results1[k] == PlayResultFrame(RoundResults(m1[k].payload, m2[k].payload).0)
      && r.results2[k] == PlayResultFrame(RoundResults(m1[k].payload, m2[k].payload).1)
    decreases n
  {
    RoundsCount(m1, m2, n, remaining1, remaining2);
    var o := PlayRound(m1[0], m2[0], remaining1, remaining2);
    if k > 0 {
      RoundResultAt(m1[1..], m2[1..], n - 1, o.value.left1, o.value.left2, k - 1);
      assert m1[k] == m1[1..][k - 1] && m2[k] == m2[1..][k - 1];
    }
  }

  /** Each accepted round removes one card from each hand, and only cards of
      the hand: a finished run of `n` rounds leaves `n` fewer in each. */
  lemma {:induction false} RoundsShrinkHands(m1: seq<Msg>, m2: seq<Msg>, n: nat, remaining1: set<int>, remaining2: set<int>)
    ensures var r := PlayRounds(m1, m2, n, remaining1, remaining2);
      && r.left1 <= remaining1 && r.left2 <= remaining2
      && (r.finished ==> |r.left1| == |remaining1| - n && |r.left2| == |remaining2| - n)
    decreases n
  {
    if n > 0 && m1 != [] && m2 != [] {
      var o := PlayRound(m1[0], m2[0], remaining1, remaining2);
      if o.Some? {
        RoundRemovesPlayedCards(m1[0], m2[0], remaining1, remaining2);
        RoundsShrinkHands(m1[1..], m2[1..], n - 1, o.value.left1, o.value.left2);
      }
    }
  }

  /** After 26 accepted rounds from two 26-card hands both hands are empty. */
  lemma FinishedEmptiesHands(m1: seq<Msg>, m2: seq<Msg>, remaining1: set<int>, remaining2: set<int>)
    requires |remaining1| == ROUNDS && |remaining2| == ROUNDS
    ensures var r := PlayRounds(m1, m2, ROUNDS, remaining1, remaining2);
      r.finished ==> r.left1 == {} && r.left2 == {}
  {
    RoundsShrinkHands(m1, m2, ROUNDS, remaining1, remaining2);
  }

  /** The first `n` messages are PLAYCARD messages whose cards are all in
      `hand` and pairwise different: no card played twice, none from elsewhere. */
  predicate LegalPlays(m: seq<Msg>, n: nat, hand: set<int>) {
    && n <= |m|
    && (forall k :: 0 <= k < n ==> m[k].cmd == PlayCard.Value() && m[k].payload in hand)
    && (forall j, k :: 0 <= j < k < n ==> m[j].payload != m[k].payload)
  }

  lemma LegalPlaysStep(m: seq<Msg>, n: nat, hand: set<int>)
    requires n > 0 && m != []
    ensures LegalPlays(m, n, hand) <==>
      m[0].cmd == PlayCard.Value() && m[0].payload in hand && LegalPlays(m[1..], n - 1, hand - {m[0].payload})
  {
    var tail := m[1..];
    if LegalPlays(m, n, hand) {
      forall k | 0 <= k < n - 1
        ensures tail[k].cmd == PlayCard.Value() && tail[k].payload in hand - {m[0].payload}
      {
        assert tail[k] == m[k + 1];
      }
      forall j, k | 0 <= j < k < n - 1
        ensures tail[j].payload != tail[k].payload
      {
        assert tail[j] == m[j + 1] && tail[k] == m[k + 1];
      }
    }
    if m[0].cmd == PlayCard.Value() && m[0].payload in hand && LegalPlays(tail, n - 1, hand - {m[0].payload}) {
      forall k | 0 < k < n
        ensures m[k].cmd == PlayCard.Value() && m[k].payload in hand - {m[0].payload}
      {
        assert m[k] == tail[k - 1];
      }
      forall j, k | 0 <= j < k < n
        ensures m[j].payload != m[k].payload
      {
        if j > 0 {
          assert m[j] == tail[j - 1] && m[k] == tail[k - 1];
        }
      }
    }
  }

  /** All `n` rounds are played exactly when both peers' next `n` messages are
      legal plays from their remaining hands; anything else kills the game. */
  lemma {:induction false} FinishedIffLegal(m1: seq<Msg>, m2: seq<Msg>, n: nat, remaining1: set<int>, remaining2: set<int>)
    ensures PlayRounds(m1, m2, n, remaining1, remaining2).finished <==>
      LegalPlays(m1, n, remaining1) && LegalPlays(m2, n, remaining2)
    decreases n
  {
    if n > 0 && m1 != [] && m2 != [] {
      LegalPlaysStep(m1, n, remaining1);
      LegalPlaysStep(m2, n, remaining2);
      var o := PlayRound(m1[0], m2[0], remaining1, remaining2);
      if o.Some? {
        FinishedIffLegal(m1[1..], m2[1..], n - 1, o.value.left1, o.value.left2);
      }
    }
  }

  /** The game completes exactly when both peers ask for a game and then play
      26 legal cards each: every one from their own dealt hand, none twice. */
  lemma CompletedIffLegal(in1: seq<byte>, in2: seq<byte>, deck: seq<int>)
    requires IsShuffledDeck(deck)
    ensures var (m1, m2) := (Messages(in1), Messages(in2));
      var (hand1, hand2) := DealCards(deck);
      Serve(in1, in2, deck).ending == Completed <==>
        && WantsGame(m1) && WantsGame(m2)
        && LegalPlays(m1[1..], ROUNDS, Elements(hand1))
        && LegalPlays(m2[1..], ROUNDS, Elements(hand2))
  {
    var (m1, m2) := (Messages(in1), Messages(in2));
    if WantsGame(m1) && WantsGame(m2) {
      var (hand1, hand2) := DealCards(deck);
      FinishedIffLegal(m1[1..], m2[1..], ROUNDS, Elements(hand1), Elements(hand2));
    }
  }

  /** A started game: GAMESTART to each peer, then the frames of the rounds. */
  lemma StartedSession(in1: seq<byte>, in2: seq<byte>, deck: seq<int>)
    requires IsShuffledDeck(deck)
    requires Serve(in1, in2, deck).sent1 != []
    ensures var s := Serve(in1, in2, deck);
      var (m1, m2) := (Messages(in1), Messages(in2));
      var (hand1, hand2) := DealCards(deck);
      var r := PlayRounds(m1[1..], m2[1..], ROUNDS, Elements(hand1), Elements(hand2));
      && WantsGame(m1) && WantsGame(m2)
      && s.sent1 == [GameStartFrame(hand1)] + r.results1
      && s.sent2 == [GameStartFrame(hand2)] + r.results2
      && (s.ending == Completed <==> r.finished)
  {
  }

  /** After GAMESTART each peer receives one PLAYRESULT per accepted round,
      frame `k` answering both peers' message `k`: complementary to the
      opponent's and decided by the ranks of the two cards played. */
  lemma SessionResultFrames(in1: seq<byte>, in2: seq<byte>, deck: seq<int>, k: nat)
    requires IsShuffledDeck(deck)
    requires 1 <= k < |Serve(in1, in2, deck).sent1|
    ensures var s := Serve(in1, in2, deck);
      var (m1, m2) := (Messages(in1), Messages(in2));
      && k < |s.sent2| && k < |m1| && k < |m2|
      && s.sent1[k] == PlayResultFrame(RoundResults(m1[k].payload, m2[k].payload).0)
      && s.sent2[k] == PlayResultFrame(RoundResults(m1[k].payload, m2[k].payload).1)
  {
    StartedSession(in1, in2, deck);
    var (m1, m2) := (Messages(in1), Messages(in2));
    var (hand1, hand2) := DealCards(deck);
    var (rest1, rest2) := (m1[1..], m2[1..]);
    RoundsCount(rest1, rest2, ROUNDS, Elements(hand1), Elements(hand2));
    RoundResultAt(rest1, rest2, ROUNDS, Elements(hand1), Elements(hand2), k - 1);
    assert rest1[k - 1] == m1[k] && rest2[k - 1] == m2[k];
  }

  /** The result frames of the rounds are two bytes each on the wire. */
  lemma RoundsBytes(m1: seq<Msg>, m2: seq<Msg>, n: nat, remaining1: set<int>, remaining2: set<int>)
    ensures var r := PlayRounds(m1, m2, n, remaining1, remaining2);
      |Flatten(r.results1)| == 2 * |r.results1| && |Flatten(r.results2)| == 2 * |r.results2|
  {
    var r := PlayRounds(m1, m2, n, remaining1, remaining2);
    RoundsCount(m1, m2, n, remaining1, remaining2);
    forall k | 0 <= k < |r.results1|
      ensures |r.results1[k]| == 2 && |r.results2[k]| == 2
    {
      RoundResultAt(m1, m2, n, remaining1, remaining2, k);
    }
    FlattenLength(r.results1, 2);
    FlattenLength(r.results2, 2);
  }

  /** Both peers receive the same number of frames, at most 27. A completed
      game sends each peer 27 frames, 79 bytes in all (27 of GAMESTART and
      52 of PLAYRESULT), and leaves both authoritative hands empty. */
  lemma CompletedSession(in1: seq<byte>, in2: seq<byte>, deck: seq<int>)
    requires IsShuffledDeck(deck)
    ensures var s := Serve(in1, in2, deck);
      && |s.sent1| == |s.sent2| <= ROUNDS + 1
      && (s.ending == Completed ==>
            && |s.sent1| == ROUNDS + 1
            && |Flatten(s.sent1)| == 79 && |Flatten(s.sent2)| == 79
            && var (hand1, hand2) := DealCards(deck);
               var r := PlayRounds(Messages(in1)[1..], Messages(in2)[1..], ROUNDS, Elements(hand1), Elements(hand2));
               r.left1 == {} && r.left2 == {})
  {
    var s := Serve(in1, in2, deck);
    if s.sent1 != [] {
      StartedSession(in1, in2, deck);
      var (rest1, rest2) := (Messages(in1)[1..], Messages(in2)[1..]);
      var (hand1, hand2) := DealCards(deck);
      var r := PlayRounds(rest1, rest2, ROUNDS, Elements(hand1), Elements(hand2));
      RoundsCount(rest1, rest2, ROUNDS, Elements(hand1), Elements(hand2));
      if s.ending == Completed {
        DealPartitionsDeck(deck);
        FinishedEmptiesHands(rest1, rest2, Elements(hand1), Elements(hand2));
        RoundsBytes(rest1, rest2, ROUNDS, Elements(hand1), Elements(hand2));
        assert Flatten(s.sent1) == s.sent1[0] + Flatten(r.results1);
        assert Flatten(s.sent2) == s.sent2[0] + Flatten(r.results2);
      }
    }
  }

  /** Playing a card a second time, in any round, kills the game. In bytes, the
      card of round `j` (counting from 0) is byte 2 * j + 3 of the peer's input. */
  lemma ReplayKills(in1: seq<byte>, in2: seq<byte>, deck: seq<int>, i: nat, j: nat)
    requires IsShuffledDeck(deck)
    requires i < j < ROUNDS
    requires (2 * j + 3 < |in1| && in1[2 * i + 3] == in1[2 * j + 3])
          || (2 * j + 3 < |in2| && in2[2 * i + 3] == in2[2 * j + 3])
    ensures Serve(in1, in2, deck).ending == Killed
  {
    CompletedIffLegal(in1, in2, deck);
    var (m1, m2) := (Messages(in1), Messages(in2));
    if 2 * j + 3 < |in1| && in1[2 * i + 3] == in1[2 * j + 3] {
      assert m1[i + 1] == Msg(in1[2 * i + 2], in1[2 * i + 3]);
      assert m1[j + 1] == Msg(in1[2 * j + 2], in1[2 * j + 3]);
      assert m1[1..][i].payload == m1[1..][j].payload;
    } else {
      assert m2[i + 1] == Msg(in2[2 * i + 2], in2[2 * i + 3]);
      assert m2[j + 1] == Msg(in2[2 * j + 2], in2[2 * j + 3]);
      assert m2[1..][i].payload == m2[1..][j].payload;
    }
  }

  /** Playing a card that was not dealt to the player (the opponent's, or no
      card at all), in any round, kills the game. */
  lemma ForeignCardKills(in1: seq<byte>, in2: seq<byte>, deck: seq<int>, j: nat)
    requires IsShuffledDeck(deck)
    requires j < ROUNDS
    requires (2 * j + 3 < |in1| && in1[2 * j + 3] !in Elements(DealCards(deck).0))
          || (2 * j + 3 < |in2| && in2[2 * j + 3] !in Elements(DealCards(deck).1))
    ensures Serve(in1, in2, deck).ending == Killed
  {
    CompletedIffLegal(in1, in2, deck);
    var (m1, m2) := (Messages(in1), Messages(in2));
    if 2 * j + 3 < |in1| && in1[2 * j + 3] !in Elements(DealCards(deck).0) {
      assert m1[1..][j] == Msg(in1[2 * j + 2], in1[2 * j + 3]);
    } else {
      assert m2[1..][j] == Msg(in2[2 * j + 2], in2[2 * j + 3]);
    }
  }

  /** Card 5 against card 18 (both rank 5) is a draw for both; each leaves its
      owner's hand, so neither can be played again. */
  lemma DrawRound(remaining1: set<int>, remaining2: set<int>)
    requires 5 in remaining1 && 18 in remaining2
    ensures var o := PlayRound(Msg(PlayCard.Value(), 5), Msg(PlayCard.Value(), 18), remaining1, remaining2);
      && o == Some(RoundOutcome(remaining1 - {5}, remaining2 - {18}, Draw, Draw))
      && (forall m :: PlayRound(Msg(PlayCard.Value(), 5), m, o.value.left1, o.value.left2).None?)
      && (forall m :: PlayRound(m, Msg(PlayCard.Value(), 18), o.value.left1, o.value.left2).None?)
  {
  }
}
