/**
 * The player list beside the game: a header with the player count, then
 * either a placeholder or one row per player in descending score order,
 * each with an avatar initial and the current user's row highlighted.
 */
module PlayerList {
  import opened Players

  /** `toUpperCase` on one character, for the ASCII letters. */
  function UpperAscii(c: char): (u: char)
    ensures 'a' <= c <= 'z' ==> 'A' <= u <= 'Z' && u as int == c as int - 32
    ensures !('a' <= c <= 'z') ==> u == c
  {
    if 'a' <= c <= 'z' then (c as int - 32) as char else c
  }

  /** `username.charAt(0).toUpperCase()`: empty for an empty name. */
  function Initial(username: string): (initial: string)
    ensures |initial| <= 1
    ensures initial == "" <==> username == ""
    ensures username != "" ==> !('a' <= initial[0] <= 'z')
    ensures username != "" && !('a' <= username[0] <= 'z') ==> initial == username[..1]
    ensures username != "" ==> initial == [UpperAscii(username[0])]
  {
    if username == "" then "" else [UpperAscii(username[0])]
  }

  /** Taking the initial of an initial changes nothing, and two names that
      differ only in the case of their first letter share an initial. */
  lemma InitialIsStable(username: string, other: string)
    ensures Initial(Initial(username)) == Initial(username)
    ensures username != "" && other != "" && UpperAscii(username[0]) == UpperAscii(other[0])
      ==> Initial(username) == Initial(other)
  {
  }

  /** One rendered row. */
  datatype Row = Row(initial: string, username: string, you: bool, highlighted: bool, score: int)

  datatype Body = Placeholder | Rows(rows: seq<Row>)

  datatype View = View(count: int, body: Body)

  function RowOf(p: Player, currentUser: string): Row
  {
    var mine := p.username == currentUser;
    Row(Initial(p.username), p.username, mine, mine, p.score)
  }

  function Render(players: seq<Player>, currentUser: string): (view: View)
    ensures view.count == |players|
    ensures view.body.Placeholder? <==> |players| == 0
  {
    View(|players|,
      if |players| == 0 then Placeholder
      else
        var sorted := SortByScore(players);
        Rows(seq(|sorted|, i requires 0 <= i < |sorted| => RowOf(sorted[i], currentUser))))
  }

  /** The header counts the players; the placeholder shows exactly when
      there are none; otherwise row i shows the i-th player of the sorted
      list, the rows are in non-increasing score order, every player has a
      row, and a row is highlighted and marked "(You)" exactly when its
      player is the current user. */
  lemma RenderShowsEveryPlayer(players: seq<Player>, currentUser: string)
    ensures Render(players, currentUser).count == |players|
    ensures Render(players, currentUser).body.Placeholder? <==> |players| == 0
    ensures Render(players, currentUser).body.Rows? ==>
      var rows := Render(players, currentUser).body.rows;
      && |rows| == |players|
      && (forall i :: 0 <= i < |rows| ==>
            rows[i].highlighted == rows[i].you == (rows[i].username == currentUser)
            && rows[i].initial == Initial(rows[i].username))
      && (forall i, j :: 0 <= i < j < |rows| ==> rows[i].score >= rows[j].score)
      && (forall p :: p in players ==>
            exists i :: 0 <= i < |rows| && rows[i].username == p.username && rows[i].score == p.score)
  {
    if |players| > 0 {
      var sorted := SortByScore(players);
      SortPermutes(players);
      SortOrders(players);
      var rows := Render(players, currentUser).body.rows;
      forall p | p in players
        ensures exists i :: 0 <= i < |rows| && rows[i].username == p.username && rows[i].score == p.score
      {
        assert p in multiset(sorted);
        var i :| 0 <= i < |sorted| && sorted[i] == p;
        assert rows[i] == RowOf(p, currentUser);
      }
    }
  }

  /** Giving the list a list that is already sorted (as the game area's
      `sortedPlayers` is) renders the same rows as giving it the raw list. */
  lemma RenderIgnoresPresorting(players: seq<Player>, currentUser: string)
    ensures Render(SortByScore(players), currentUser) == Render(players, currentUser)
  {
    SortPermutes(players);
    SortIsIdempotent(players);
  }
}
