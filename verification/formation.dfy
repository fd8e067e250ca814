/** Automatic placement of field players that have no position yet
    (`FORMATIONS` and the coordinate half of `placeOnField`,
    app.js:296-325). */
module Formation {
  import opened Squad

  /** `FORMATIONS[mode]`: goalkeeper first, then defence, midfield and
      attack, as percentages of the pitch. There is one slot per starter,
      every slot lies strictly inside the pitch, and the goalkeeper is the
      deepest player. */
  function Slots(m: Mode): (r: seq<(int, int)>)
    ensures |r| == StartersCount(m)
    ensures forall i :: 0 <= i < |r| ==> 0 < r[i].0 < 100 && 0 < r[i].1 < 100
    ensures forall i :: 0 < i < |r| ==> r[i].1 < r[0].1
  {
    match m
    case F7 => [(50, 88), (30, 70), (70, 70), (20, 45), (50, 45), (80, 45), (50, 15)]
    case F11 => [(50, 92), (15, 75), (38, 78), (62, 78), (85, 75),
                 (30, 50), (50, 55), (70, 50), (20, 25), (80, 25), (50, 12)]
  }

  /** JavaScript's `a % b`, which truncates toward zero (Dafny's `%` is
      Euclidean). */
  function JsRem(a: int, b: int): (r: int)
    requires b > 0
    ensures -b < r < b
    ensures a >= 0 ==> r == a % b
    ensures a < 0 ==> r <= 0
  {
    if a >= 0 then a % b else -((-a) % b)
  }

  /** The point for the player at position `index` among the field players
      (`-1` for a player that is not on the field, as `indexOf` gives):
      the formation slot when there is one, else the fallback grid of three
      columns, 30 points apart, and rows 20 points apart. For the divisor 3,
      `Math.floor(index / 3)` is Dafny's `index / 3`. Whatever the index,
      the point is never the "not placed" sentinel (0, 0), and the slots
      used by a fresh squad's starters lie on the pitch. */
  function SlotCell(m: Mode, index: int): (r: (int, int))
    ensures 0 <= index < |Slots(m)| ==> r == Slots(m)[index]
    ensures |Slots(m)| <= index ==> r == (20 + (index % 3) * 30, 20 + (index / 3) * 20)
    ensures r != (0, 0)
    ensures 0 <= index < StartersCount(m) ==> 0 <= r.0 <= 100 && 0 <= r.1 <= 100
  {
    var table := Slots(m);
    if 0 <= index < |table| then table[index]
    else (20 + JsRem(index, 3) * 30, 20 + (index / 3) * 20)
  }

  lemma SlotsDistinct(m: Mode)
    ensures forall i, j :: 0 <= i < j < |Slots(m)| ==> Slots(m)[i] != Slots(m)[j]
  {
  }

  /** No formation slot lies on the fallback grid's rows from 60 down. */
  lemma SlotsOffFallbackRows(m: Mode)
    ensures forall i :: 0 <= i < |Slots(m)| ==> Slots(m)[i].1 < 60 || Slots(m)[i].1 % 20 != 0
  {
  }

  /** Different field positions get different points: auto-placement never
      stacks two chips. */
  lemma SlotCellInjective(m: Mode, i: int, j: int)
    requires 0 <= i < j
    ensures SlotCell(m, i) != SlotCell(m, j)
  {
    var n := |Slots(m)|;
    if j < n {
      SlotsDistinct(m);
    } else if i < n {
      SlotsOffFallbackRows(m);
      assert j / 3 >= 2;
      assert (20 + (j / 3) * 20) % 20 == 0;
    }
  }

  /** Prefix field counts never exceed the whole. */
  lemma {:induction false} FieldCountPrefix(ps: seq<Player>, j: nat)
    requires j <= |ps|
    ensures FieldCount(ps[..j]) <= FieldCount(ps)
  {
    if j < |ps| {
      FieldCountPrefix(ps[..|ps| - 1], j);
      assert ps[..|ps| - 1][..j] == ps[..j];
    } else {
      assert ps[..j] == ps;
    }
  }

  /** The field count reads only statuses. */
  lemma {:induction false} FieldCountStatusesOnly(ps: seq<Player>, qs: seq<Player>)
    requires |ps| == |qs|
    requires forall i :: 0 <= i < |ps| ==> ps[i].status == qs[i].status
    ensures FieldCount(ps) == FieldCount(qs)
  {
    if ps != [] {
      FieldCountStatusesOnly(ps[..|ps| - 1], qs[..|qs| - 1]);
    }
  }

  /** `players.filter(p => p.status === 'field').indexOf(player)`. */
  function FieldRank(ps: seq<Player>, k: nat): (r: int)
    requires k < |ps|
    ensures ps[k].status == Bench ==> r == -1
    ensures ps[k].status == Field ==> 0 <= r < FieldCount(ps)
  {
    if ps[k].status == Field then
      FieldCountPrefix(ps, k + 1);
      assert ps[..k + 1][..k] == ps[..k];
      FieldCount(ps[..k])
    else -1
  }

  /** Two field players never share a rank. */
  lemma FieldRanksDistinct(ps: seq<Player>, i: nat, j: nat)
    requires i < j < |ps|
    requires ps[i].status == Field && ps[j].status == Field
    ensures FieldRank(ps, i) < FieldRank(ps, j)
  {
    FieldCountPrefix(ps[..j], i + 1);
    assert ps[..j][..i + 1] == ps[..i + 1];
    assert ps[..i + 1][..i] == ps[..i];
  }

  /** `placeOnField` on the player at `k`: an unplaced player gets the
      point of its field rank; a placed one keeps its point (a manual drop
      is never recomputed). Either way it is not at the sentinel after. */
  function Placed(ps: seq<Player>, k: nat, m: Mode): (r: Player)
    requires k < |ps|
    ensures r.(x := ps[k].x, y := ps[k].y) == ps[k]
    ensures !(r.x == 0.0 && r.y == 0.0)
    ensures !(ps[k].x == 0.0 && ps[k].y == 0.0) ==> r == ps[k]
    ensures ps[k].x == 0.0 && ps[k].y == 0.0 ==>
              var c := SlotCell(m, FieldRank(ps, k));
              r.x == c.0 as real && r.y == c.1 as real
  {
    var p := ps[k];
    if p.x == 0.0 && p.y == 0.0 then
      var c := SlotCell(m, FieldRank(ps, k));
      p.(x := c.0 as real, y := c.1 as real)
    else p
  }

  /** The record at `i` after the placement pass of `renderPlayers`
      (app.js:165-170): field players go through `placeOnField`, bench
      players are left as they are. */
  function ArrangedAt(ps: seq<Player>, i: nat, m: Mode): (r: Player)
    requires i < |ps|
    ensures r.(x := ps[i].x, y := ps[i].y) == ps[i]
    ensures r.status == Field ==> !(r.x == 0.0 && r.y == 0.0)
    ensures r.status == Field ==> r == Placed(ps, i, m)
    ensures r.status == Bench ==> r == ps[i]
  {
    if ps[i].status == Field then Placed(ps, i, m) else ps[i]
  }

  /** Spawn, the placement pass and the table agree: after the first pass
      over a fresh squad, starter `k` stands on slot `k` of the formation. */
  lemma StartersTakeFormation(m: Mode, color: string, k: nat)
    requires k < StartersCount(m)
    ensures var r := ArrangedAt(InitialSquad(m, color), k, m);
            r.status == Field && r.x == Slots(m)[k].0 as real && r.y == Slots(m)[k].1 as real
  {
    SquadPrefixOnField(m, color, k);
  }

  /** Where `placeOnField` puts a player depends on the other players only
      through the statuses of those before it. */
  lemma PlacedByStatuses(ps: seq<Player>, qs: seq<Player>, k: nat, m: Mode)
    requires k < |ps| == |qs| && ps[k] == qs[k]
    requires forall i :: 0 <= i < k ==> ps[i].status == qs[i].status
    ensures Placed(ps, k, m) == Placed(qs, k, m)
  {
    FieldCountStatusesOnly(ps[..k], qs[..k]);
    assert FieldRank(ps, k) == FieldRank(qs, k);
  }

  /** Two unplaced field players are never auto-placed on the same point. */
  lemma PlacedApart(ps: seq<Player>, i: nat, j: nat, m: Mode)
    requires i < j < |ps|
    requires ps[i].status == Field && ps[j].status == Field
    requires ps[i].x == 0.0 && ps[i].y == 0.0 && ps[j].x == 0.0 && ps[j].y == 0.0
    ensures (Placed(ps, i, m).x, Placed(ps, i, m).y) != (Placed(ps, j, m).x, Placed(ps, j, m).y)
  {
    FieldRanksDistinct(ps, i, j);
    SlotCellInjective(m, FieldRank(ps, i), FieldRank(ps, j));
  }
}
