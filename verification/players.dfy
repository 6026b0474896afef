/**
 * Players as the game server sends them, and the descending-score sort that
 * both the game area and the player list apply to a copy of the list
 * (`[...players].sort((a, b) => b.score - a.score)`).  JavaScript's sort is
 * stable, so players with equal scores keep their input order.
 */
module Players {

  datatype Player = Player(id: string, username: string, score: int)

  /** Non-increasing in score. */
  ghost predicate ByScoreDesc(s: seq<Player>)
  {
    forall i, j :: 0 <= i < j < |s| ==> s[i].score >= s[j].score
  }

  /** The players of `s` whose score is `k`, in their order in `s`. */
  function WithScore(s: seq<Player>, k: int): seq<Player>
  {
    if |s| == 0 then []
    else (if s[0].score == k then [s[0]] else []) + WithScore(s[1..], k)
  }

  /** Place `p` before the first player of `sorted` whose score is not above its own. */
  function Insert(p: Player, sorted: seq<Player>): (r: seq<Player>)
    ensures |r| == |sorted| + 1
  {
    if |sorted| == 0 || p.score >= sorted[0].score then [p] + sorted
    else [sorted[0]] + Insert(p, sorted[1..])
  }

  /** The stable descending sort by score. */
  function SortByScore(players: seq<Player>): (sorted: seq<Player>)
    ensures |sorted| == |players|
  {
    if |players| == 0 then [] else Insert(players[0], SortByScore(players[1..]))
  }

  lemma {:induction false} InsertPermutes(p: Player, s: seq<Player>)
    ensures multiset(Insert(p, s)) == multiset(s) + multiset{p}
  {
    if |s| > 0 && p.score < s[0].score {
      InsertPermutes(p, s[1..]);
      assert s == [s[0]] + s[1..];
    }
  }

  lemma {:induction false} InsertKeepsOrder(p: Player, s: seq<Player>)
    requires ByScoreDesc(s)
    ensures ByScoreDesc(Insert(p, s))
  {
    if |s| > 0 && p.score < s[0].score {
      InsertKeepsOrder(p, s[1..]);
      var r := Insert(p, s[1..]);
      InsertPermutes(p, s[1..]);
      forall x | x in r
        ensures x.score <= s[0].score
      {
        assert x in multiset(r);
        if x != p {
          assert x in multiset(s[1..]);
        }
      }
    }
  }

  /** Inserting `p` adds it in front of the players of equal score and leaves
      every other score class alone. */
  lemma {:induction false} InsertIsStable(p: Player, s: seq<Player>, k: int)
    ensures WithScore(Insert(p, s), k) == (if p.score == k then [p] else []) + WithScore(s, k)
  {
    var mine := if p.score == k then [p] else [];
    if |s| == 0 || p.score >= s[0].score {
      var r := [p] + s;
      assert r[0] == p && r[1..] == s;
      assert WithScore(r, k) == mine + WithScore(s, k);
    } else {
      var head := if s[0].score == k then [s[0]] else [];
      var rest := Insert(p, s[1..]);
      InsertIsStable(p, s[1..], k);
      var r := [s[0]] + rest;
      assert r[0] == s[0] && r[1..] == rest;
      assert WithScore(r, k) == head + (mine + WithScore(s[1..], k));
      assert WithScore(s, k) == head + WithScore(s[1..], k);
      // `p` scores below `s[0]`, so at most one of `head` and `mine` is non-empty.
      assert head == [] || mine == [];
    }
  }

  /** The sorted list is a permutation of the input. */
  lemma {:induction false} SortPermutes(players: seq<Player>)
    ensures multiset(SortByScore(players)) == multiset(players)
    ensures |SortByScore(players)| == |players|
  {
    if |players| > 0 {
      SortPermutes(players[1..]);
      InsertPermutes(players[0], SortByScore(players[1..]));
      assert players == [players[0]] + players[1..];
    }
    assert |multiset(SortByScore(players))| == |multiset(players)|;
  }

  /** The sorted list is non-increasing in score. */
  lemma {:induction false} SortOrders(players: seq<Player>)
    ensures ByScoreDesc(SortByScore(players))
  {
    if |players| > 0 {
      SortOrders(players[1..]);
      InsertKeepsOrder(players[0], SortByScore(players[1..]));
    }
  }

  /** Stability: for every score, the players with that score appear in the
      sorted list in the order they had in the input. */
  lemma {:induction false} SortIsStable(players: seq<Player>, k: int)
    ensures WithScore(SortByScore(players), k) == WithScore(players, k)
  {
    if |players| > 0 {
      SortIsStable(players[1..], k);
      InsertIsStable(players[0], SortByScore(players[1..]), k);
    }
  }

  /** A list that is already in order is returned unchanged; in particular
      sorting twice is sorting once. */
  lemma {:induction false} SortOfSortedIsIdentity(players: seq<Player>)
    requires ByScoreDesc(players)
    ensures SortByScore(players) == players
  {
    if |players| > 0 {
      SortOfSortedIsIdentity(players[1..]);
      assert players == [players[0]] + players[1..];
    }
  }

  lemma SortIsIdempotent(players: seq<Player>)
    ensures SortByScore(SortByScore(players)) == SortByScore(players)
  {
    SortOrders(players);
    SortOfSortedIsIdentity(SortByScore(players));
  }
}
