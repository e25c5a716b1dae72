/** The player registry. Every operation is a pure update from the previous
    list of players to the next one, as handed to the state setter. */
module Players {
  import opened Wrappers
  import opened Modes
  import opened Geometry

  /** A marker's colour: the hue the registry derives from the id (the
      hsl(...) string formatting is not modelled), or any colour a patch
      supplies. */
  datatype Color = Hue(hue: int) | Css(css: string)

  /** A player: x and y are relative to the court rectangle; path is the trail
      of relative positions recorded while dragging. */
  datatype Player = Player(id: int, name: string, x: real, y: real, color: Color, path: seq<Point>)

  /** The typed form of the partial object merged by an update. */
  datatype Patch = Patch(name: Option<string>, color: Option<Color>)

  predicate IdsDistinct(ps: seq<Player>) {
    forall i, j :: 0 <= i < j < |ps| ==> ps[i].id != ps[j].id
  }

  predicate HasId(ps: seq<Player>, id: int) {
    exists i :: 0 <= i < |ps| && ps[i].id == id
  }

  /** JavaScript's remainder, which truncates toward zero (the result takes
      the sign of the dividend). */
  function JsRem(a: int, n: int): (r: int)
    requires n > 0
    ensures a >= 0 ==> 0 <= r < n
    ensures a < 0 ==> -n < r <= 0
  {
    if a >= 0 then a % n else -((-a) % n)
  }

  /** The truncating remainder is a remainder: the dividend is a multiple of
      n plus the result, which with the sign bounds above fixes the value. */
  lemma JsRemIsRemainder(a: int, n: int)
    requires n > 0
    ensures exists q :: a == q * n + JsRem(a, n)
  {
    if a >= 0 {
      assert a == (a / n) * n + JsRem(a, n);
    } else {
      assert -a == ((-a) / n) * n + (-a) % n;
      assert a == (-((-a) / n)) * n + JsRem(a, n);
    }
  }

  /** The largest id in a non-empty list. */
  function MaxId(ps: seq<Player>): (m: int)
    requires |ps| > 0
    ensures forall i :: 0 <= i < |ps| ==> ps[i].id <= m
    ensures exists i :: 0 <= i < |ps| && ps[i].id == m
  {
    if |ps| == 1 then ps[0].id
    else
      var rest := MaxId(ps[1..]);
      if ps[0].id >= rest then ps[0].id else rest
  }

  /** The id a new player receives: one more than the largest, or 1. */
  function NextId(ps: seq<Player>): (id: int)
    ensures forall i :: 0 <= i < |ps| ==> ps[i].id < id
    ensures ps == [] ==> id == 1
    ensures ps != [] ==> HasId(ps, id - 1)
  {
    if |ps| > 0 then MaxId(ps) + 1 else 1
  }

  /** The default label of the n-th player: a letter cycling through A..Z. */
  function DefaultName(n: nat): (name: string)
    ensures |name| == 1 && 'A' <= name[0] <= 'Z'
  {
    [(65 + n % 26) as char]
  }

  /** Names repeat after the 26th player. */
  lemma DefaultNameCycles(n: nat)
    ensures DefaultName(n + 26) == DefaultName(n)
  {
    assert (n + 26) % 26 == n % 26;
  }

  /** The first name is "A"; each next name is the next letter, and "Z" is
      followed by "A" again. */
  lemma DefaultNameSequence(n: nat)
    ensures DefaultName(0) == "A"
    ensures n % 26 < 25 ==> DefaultName(n + 1)[0] as int == DefaultName(n)[0] as int + 1
    ensures n % 26 == 25 ==> DefaultName(n) == "Z" && DefaultName(n + 1) == "A"
  {
    if n % 26 < 25 {
      assert (n + 1) % 26 == n % 26 + 1;
    } else {
      assert (n + 1) % 26 == 0;
    }
  }

  function AddPlayer(ps: seq<Player>): (r: seq<Player>)
    ensures |r| == |ps| + 1 && r[..|ps|] == ps
    ensures var p := r[|ps|];
      && p.id == NextId(ps)
      && p.name == DefaultName(|ps|)
      && p.x == 0.2 + |ps| as real * 0.04
      && p.y == 0.2 + |ps| as real * 0.03
      && p.color == Hue(JsRem(73 * p.id, 360))
      && p.path == []
  {
    var n := |ps|;
    var id := NextId(ps);
    ps + [Player(id, DefaultName(n), 0.2 + n as real * 0.04, 0.2 + n as real * 0.03, Hue(JsRem(id * 73, 360)), [])]
  }

  /** The new player's id exceeds every existing id, so distinct ids stay
      distinct, and when the existing ids are non-negative its hue lies in
      [0, 360). */
  lemma AddPlayerKeepsIds(ps: seq<Player>)
    ensures IdsDistinct(ps) ==> IdsDistinct(AddPlayer(ps))
    ensures (forall i :: 0 <= i < |ps| ==> ps[i].id >= 0) ==>
      var p := AddPlayer(ps)[|ps|]; p.id >= 1 && 0 <= p.color.hue < 360
  {
  }

  /** Adding n players to an empty registry. */
  function AddPlayers(n: nat): (ps: seq<Player>)
    ensures |ps| == n
  {
    if n == 0 then [] else AddPlayer(AddPlayers(n - 1))
  }

  /** The shape of a registry built by additions from empty: the entry at
      index i has id i+1, the i-th letter, the i-th staggered position and
      an empty trail. */
  predicate BuiltFromEmpty(ps: seq<Player>) {
    forall i :: 0 <= i < |ps| ==>
      && ps[i].id == i + 1
      && ps[i].name == DefaultName(i)
      && ps[i].x == 0.2 + i as real * 0.04
      && ps[i].y == 0.2 + i as real * 0.03
      && ps[i].path == []
  }

  /** A registry built from empty has the ids 1..n, so the next id is n+1. */
  lemma BuiltNextId(ps: seq<Player>)
    requires BuiltFromEmpty(ps)
    ensures NextId(ps) == |ps| + 1
  {
    if |ps| > 0 {
      assert ps[|ps| - 1].id == |ps|;
    }
  }

  /** Adding one player keeps the shape of a registry built from empty. */
  lemma AddPlayerKeepsBuilt(ps: seq<Player>)
    requires BuiltFromEmpty(ps)
    ensures BuiltFromEmpty(AddPlayer(ps))
  {
    BuiltNextId(ps);
    var next := AddPlayer(ps);
    forall i | 0 <= i < |ps|
      ensures next[i] == ps[i]
    {
      assert next[..|ps|][i] == next[i];
    }
  }

  /** Adding n players to an empty registry gives ids 1..n, the letters
      A, B, ... in order, and the staggered start positions. */
  lemma {:induction false} AddPlayersFromEmpty(n: nat)
    ensures BuiltFromEmpty(AddPlayers(n))
  {
    if n > 0 {
      AddPlayersFromEmpty(n - 1);
      AddPlayerKeepsBuilt(AddPlayers(n - 1));
    }
  }

  /** The first 26 default names are pairwise different. */
  lemma DefaultNamesDistinct(i: nat, j: nat)
    requires i < j < 26
    ensures DefaultName(i) != DefaultName(j)
  {
  }

  /** Up to 26 players added to an empty registry get pairwise distinct ids
      and pairwise distinct names. */
  lemma AddPlayersDistinct(n: nat)
    requires n <= 26
    ensures IdsDistinct(AddPlayers(n))
    ensures forall i, j :: 0 <= i < j < n ==> AddPlayers(n)[i].name != AddPlayers(n)[j].name
  {
    var ps := AddPlayers(n);
    AddPlayersFromEmpty(n);
    forall i, j | 0 <= i < j < n
      ensures ps[i].name != ps[j].name
    {
      DefaultNamesDistinct(i, j);
    }
  }

  function RemovePlayer(ps: seq<Player>, id: int): (r: seq<Player>)
    ensures |r| <= |ps|
    ensures forall i :: 0 <= i < |r| ==> r[i].id != id
  {
    if ps == [] then []
    else (if ps[0].id == id then [] else [ps[0]]) + RemovePlayer(ps[1..], id)
  }

  /** Removing an id that no entry carries changes nothing, and only then. */
  lemma {:induction false} RemovePlayerAbsent(ps: seq<Player>, id: int)
    ensures !HasId(ps, id) <==> RemovePlayer(ps, id) == ps
  {
    if ps != [] {
      RemovePlayerAbsent(ps[1..], id);
      if !HasId(ps, id) {
        assert !HasId(ps[1..], id) by {
          forall i | 0 <= i < |ps| - 1 ensures ps[1..][i].id != id {
            assert ps[1..][i] == ps[i + 1];
          }
        }
      } else if ps[0].id != id {
        var i :| 0 <= i < |ps| && ps[i].id == id;
        assert ps[1..][i - 1] == ps[i];
      }
    }
  }

  /** Removing an id that some entry carries makes the list shorter. */
  lemma {:induction false} RemovePlayerShrinks(ps: seq<Player>, id: int)
    requires HasId(ps, id)
    ensures |RemovePlayer(ps, id)| < |ps|
  {
    if ps[0].id != id {
      var i :| 0 <= i < |ps| && ps[i].id == id;
      assert ps[1..][i - 1] == ps[i];
      RemovePlayerShrinks(ps[1..], id);
    }
  }

  /** Removal keeps order: it distributes over concatenation. */
  lemma {:induction false} RemovePlayerAppend(a: seq<Player>, b: seq<Player>, id: int)
    ensures RemovePlayer(a + b, id) == RemovePlayer(a, id) + RemovePlayer(b, id)
  {
    if a == [] {
      assert a + b == b;
    } else {
      var head := if a[0].id == id then [] else [a[0]];
      assert (a + b)[0] == a[0];
      assert (a + b)[1..] == a[1..] + b;
      RemovePlayerAppend(a[1..], b, id);
      calc {
        RemovePlayer(a + b, id);
        head + RemovePlayer(a[1..] + b, id);
        head + (RemovePlayer(a[1..], id) + RemovePlayer(b, id));
        (head + RemovePlayer(a[1..], id)) + RemovePlayer(b, id);
        RemovePlayer(a, id) + RemovePlayer(b, id);
      }
    }
  }

  /** With distinct ids, no entry before or after index k carries the id
      of entry k. */
  lemma DistinctIdsAround(ps: seq<Player>, k: int)
    requires IdsDistinct(ps) && 0 <= k < |ps|
    ensures !HasId(ps[..k], ps[k].id) && !HasId(ps[k + 1..], ps[k].id)
  {
    var before, after := ps[..k], ps[k + 1..];
    forall i | 0 <= i < |before| ensures before[i].id != ps[k].id {
      assert before[i] == ps[i];
    }
    forall i | 0 <= i < |after| ensures after[i].id != ps[k].id {
      assert after[i] == ps[k + 1 + i];
    }
  }

  /** With distinct ids, removing the player at index k leaves exactly the
      entries before and after it, in their order. */
  lemma RemovePlayerAt(ps: seq<Player>, k: int)
    requires IdsDistinct(ps) && 0 <= k < |ps|
    ensures RemovePlayer(ps, ps[k].id) == ps[..k] + ps[k + 1..]
  {
    DistinctIdsAround(ps, k);
    assert ps == ps[..k] + [ps[k]] + ps[k + 1..];
    RemoveOnlyMatch(ps[..k], ps[k], ps[k + 1..]);
  }

  /** Removing the id of the one entry that carries it leaves the entries
      around it. */
  lemma RemoveOnlyMatch(before: seq<Player>, p: Player, after: seq<Player>)
    requires !HasId(before, p.id) && !HasId(after, p.id)
    ensures RemovePlayer(before + [p] + after, p.id) == before + after
  {
    RemovePlayerAbsent(before, p.id);
    RemovePlayerAbsent(after, p.id);
    RemovePlayerAppend(before + [p], after, p.id);
    RemovePlayerAppend(before, [p], p.id);
    assert RemovePlayer([p], p.id) == [] by {
      assert [p][1..] == [];
    }
  }

  /** Merges the fields a patch carries into a player. */
  function ApplyPatch(p: Player, patch: Patch): (q: Player)
    ensures q.name == patch.name.GetOr(p.name) && q.color == patch.color.GetOr(p.color)
    ensures q.(name := p.name, color := p.color) == p
  {
    var p1 := if patch.name.Some? then p.(name := patch.name.value) else p;
    if patch.color.Some? then p1.(color := patch.color.value) else p1
  }

  function UpdatePlayer(ps: seq<Player>, id: int, patch: Patch): (r: seq<Player>)
    ensures |r| == |ps|
    ensures forall i :: 0 <= i < |ps| ==> r[i] == if ps[i].id == id then ApplyPatch(ps[i], patch) else ps[i]
  {
    if ps == [] then [] else [if ps[0].id == id then ApplyPatch(ps[0], patch) else ps[0]] + UpdatePlayer(ps[1..], id, patch)
  }

  /** An update changes nothing when the id is absent and never changes ids,
      so distinct ids stay distinct. */
  lemma UpdatePlayerKeepsIds(ps: seq<Player>, id: int, patch: Patch)
    ensures !HasId(ps, id) ==> UpdatePlayer(ps, id, patch) == ps
    ensures IdsDistinct(ps) ==> IdsDistinct(UpdatePlayer(ps, id, patch))
  {
  }

  function ClearPlayerPaths(ps: seq<Player>): (r: seq<Player>)
    ensures |r| == |ps|
    ensures forall i :: 0 <= i < |ps| ==> r[i].path == [] && r[i].(path := ps[i].path) == ps[i]
  {
    if ps == [] then [] else [ps[0].(path := [])] + ClearPlayerPaths(ps[1..])
  }

  /** A drag in play mode moves the matching player to the relative position
      of the dragged marker's stage position and appends that position to
      its trail; in any other mode it changes nothing. */
  function DragMove(ps: seq<Player>, mode: Mode, court: Rect, id: int, pos: Point): (r: seq<Player>)
    requires mode == Play ==> NonDegenerate(court)
    ensures mode != Play ==> r == ps
    ensures |r| == |ps|
    ensures mode == Play ==> forall i :: 0 <= i < |ps| ==>
      r[i] == if ps[i].id == id then
        var rel := AbsToRel(court, pos);
        ps[i].(x := rel.x, y := rel.y, path := ps[i].path + [rel])
      else ps[i]
  {
    if mode != Play then ps
    else
      var rel := AbsToRel(court, pos);
      MoveTo(ps, id, rel)
  }

  function MoveTo(ps: seq<Player>, id: int, rel: Point): (r: seq<Player>)
    ensures |r| == |ps|
    ensures forall i :: 0 <= i < |ps| ==>
      r[i] == if ps[i].id == id then ps[i].(x := rel.x, y := rel.y, path := ps[i].path + [rel]) else ps[i]
  {
    if ps == [] then []
    else [if ps[0].id == id then ps[0].(x := rel.x, y := rel.y, path := ps[0].path + [rel]) else ps[0]] + MoveTo(ps[1..], id, rel)
  }

  /** Where a dragged player is drawn: the stage position of its relative
      coordinates. */
  function RenderPlayerX(court: Rect, p: Player): real {
    court.x + p.x * court.width
  }

  function RenderPlayerY(court: Rect, p: Player): real {
    court.y + p.y * court.height
  }

  /** The renderer's per-player formulas agree with the mapper. */
  lemma RenderAgreesWithMapper(court: Rect, p: Player)
    ensures RelToAbs(court, Point(p.x, p.y)) == Point(RenderPlayerX(court, p), RenderPlayerY(court, p))
  {
  }

  /** After a drag in play mode the dragged player is drawn exactly at the
      marker's stage position, and its trail has grown by one point. */
  lemma DragMoveRendersAtMarker(ps: seq<Player>, court: Rect, id: int, pos: Point, k: int)
    requires NonDegenerate(court) && 0 <= k < |ps| && ps[k].id == id
    ensures var r := DragMove(ps, Play, court, id, pos);
      RenderPlayerX(court, r[k]) == pos.x && RenderPlayerY(court, r[k]) == pos.y
      && |r[k].path| == |ps[k].path| + 1
  {
  }

  /** Clearing trails and dragging never change ids, so distinct ids stay
      distinct; a drag for an id that no entry carries changes nothing. */
  lemma PositionUpdatesKeepIds(ps: seq<Player>, mode: Mode, court: Rect, id: int, pos: Point)
    requires mode == Play ==> NonDegenerate(court)
    ensures IdsDistinct(ps) ==> IdsDistinct(ClearPlayerPaths(ps))
    ensures IdsDistinct(ps) ==> IdsDistinct(DragMove(ps, mode, court, id, pos))
    ensures !HasId(ps, id) ==> DragMove(ps, mode, court, id, pos) == ps
  {
  }

  /** A first player is added to an empty registry, dragged in play mode to
      the middle of the court, then dragged again after switching to draw
      mode, which has no effect. */
  lemma AddThenDragScenario(court: Rect, elsewhere: Point)
    requires NonDegenerate(court)
    ensures var ps1 := AddPlayer([]);
      && ps1 == [Player(1, "A", 0.2, 0.2, Hue(73), [])]
      && var ps2 := DragMove(ps1, Play, court, 1, RelToAbs(court, Point(0.5, 0.5)));
      && ps2 == [Player(1, "A", 0.5, 0.5, Hue(73), [Point(0.5, 0.5)])]
      && DragMove(ps2, Draw, court, 1, elsewhere) == ps2
  {
    var ps1 := AddPlayer([]);
    assert ps1[0] == Player(1, "A", 0.2, 0.2, Hue(73), []);
    var ps2 := DragMove(ps1, Play, court, 1, RelToAbs(court, Point(0.5, 0.5)));
    assert ps2[0] == Player(1, "A", 0.5, 0.5, Hue(73), [Point(0.5, 0.5)]);
  }
}
