/** The player records of app.js (built at app.js:99-110) as values, and the
    pure part of every change the engine makes to one or two of them. The
    `Session` class in module Match applies these to its player list. */
module Squad {
  import opened Wrappers
  import opened JsText
  import opened TimeFormat

  /** `currentMode`: Fútbol 7 or Fútbol 11. */
  datatype Mode = F7 | F11

  datatype Status = Field | Bench

  /** One entry of a player's history. The source stores the text
      "Entra a las MM:SS" or "Sale a las MM:SS" (see MovementText); the
      model keeps the tag and the match second it was stamped with. */
  datatype Movement = Entra(at: nat) | Sale(at: nat)

  /** A player record. `number` is the dorsal as shown: a number at first,
      the operator's raw answer after an edit. `x` and `y` are percentages
      of the pitch; `(0, 0)` means "not placed yet". */
  datatype Player = Player(
    id: nat,
    number: string,
    name: string,
    status: Status,
    time: nat,
    color: string,
    history: seq<Movement>,
    x: real,
    y: real)

  // ---------------------------------------------------------------------
  // Squad generation
  // ---------------------------------------------------------------------

  function SquadSize(m: Mode): nat {
    match m
    case F7 => 14
    case F11 => 18
  }

  function StartersCount(m: Mode): nat {
    match m
    case F7 => 7
    case F11 => 11
  }

  /** The record `spawnInitialPlayers` pushes for loop counter `i`: id `i`
      with a dorsal that reads back as `i`, on the field exactly when `i`
      is within the starters, no time played, no history, not placed. */
  function Recruit(i: nat, starters: nat, color: string): (r: Player)
    ensures r.id == i && AllDigits(r.number) && DigitsValue(r.number) == i && r.color == color
    ensures r.status == Field <==> i <= starters
    ensures r.time == 0 && r.history == [] && r.x == 0.0 && r.y == 0.0
  {
    DecimalRoundTrip(i);
    Player(i, Decimal(i), "Jugador " + Decimal(i),
           if i <= starters then Field else Bench, 0, color, [], 0.0, 0.0)
  }

  /** The squad `spawnInitialPlayers` builds: ids and dorsals 1..N in order,
      the first `StartersCount` on the field, nobody has played, nobody has
      a history and nobody is placed yet. */
  function InitialSquad(m: Mode, color: string): (r: seq<Player>)
    ensures |r| == SquadSize(m)
    ensures forall k :: 0 <= k < |r| ==>
              r[k].id == k + 1 && r[k].number == Decimal(k + 1) &&
              r[k].name == "Jugador " + Decimal(k + 1) && r[k].color == color &&
              (r[k].status == Field <==> k < StartersCount(m)) &&
              r[k].time == 0 && r[k].history == [] && r[k].x == 0.0 && r[k].y == 0.0
  {
    seq(SquadSize(m), k requires 0 <= k => Recruit(k + 1, StartersCount(m), color))
  }

  /** How many players are on the field. */
  function FieldCount(ps: seq<Player>): (n: nat)
    ensures n <= |ps|
  {
    if ps == [] then 0
    else FieldCount(ps[..|ps| - 1]) + (if ps[|ps| - 1].status == Field then 1 else 0)
  }

  lemma {:induction false} SquadPrefixOnField(m: Mode, color: string, j: nat)
    requires j <= SquadSize(m)
    ensures FieldCount(InitialSquad(m, color)[..j]) == if j < StartersCount(m) then j else StartersCount(m)
  {
    var sq := InitialSquad(m, color);
    if j > 0 {
      SquadPrefixOnField(m, color, j - 1);
      assert sq[..j][..j - 1] == sq[..j - 1];
    }
  }

  /** A fresh squad has exactly `StartersCount` players on the field and the
      rest (7 for Fútbol 7, 7 for Fútbol 11) on the bench. */
  lemma StartersOnField(m: Mode, color: string)
    ensures FieldCount(InitialSquad(m, color)) == StartersCount(m)
    ensures SquadSize(m) - FieldCount(InitialSquad(m, color)) == 7
  {
    var sq := InitialSquad(m, color);
    SquadPrefixOnField(m, color, |sq|);
    assert sq[..|sq|] == sq;
  }

  /** Changing one record changes the field count only by that record. */
  lemma {:induction false} FieldCountUpdate(ps: seq<Player>, k: nat, p: Player)
    requires k < |ps|
    ensures FieldCount(ps[k := p]) ==
            FieldCount(ps) - (if ps[k].status == Field then 1 else 0) + (if p.status == Field then 1 else 0)
  {
    var n := |ps|;
    var q := ps[k := p];
    assert FieldCount(q) == FieldCount(q[..n - 1]) + (if q[n - 1].status == Field then 1 else 0);
    assert FieldCount(ps) == FieldCount(ps[..n - 1]) + (if ps[n - 1].status == Field then 1 else 0);
    if k == n - 1 {
      assert q[..n - 1] == ps[..n - 1];
    } else {
      FieldCountUpdate(ps[..n - 1], k, p);
      assert q[..n - 1] == ps[..n - 1][k := p];
    }
  }

  // ---------------------------------------------------------------------
  // Lookup: players.find(p => p.id == id)
  // ---------------------------------------------------------------------

  /** Index of the first player with this id, or None when there is none. */
  method FindPlayer(ps: seq<Player>, id: nat) returns (r: Option<nat>)
    ensures r.Some? ==> r.value < |ps| && ps[r.value].id == id &&
                        forall j :: 0 <= j < r.value ==> ps[j].id != id
    ensures r.None? <==> forall j :: 0 <= j < |ps| ==> ps[j].id != id
  {
    var k := 0;
    while k < |ps|
      invariant k <= |ps|
      invariant forall j :: 0 <= j < k ==> ps[j].id != id
    {
      if ps[k].id == id {
        return Some(k);
      }
      k := k + 1;
    }
    return None;
  }

  // ---------------------------------------------------------------------
  // History
  // ---------------------------------------------------------------------

  /** The text `logMovement` stores for an entry: the direction word, then
      the match clock as `FormatTime` prints it. */
  function MovementText(m: Movement): (r: string)
    ensures var f := FormatTime(m.at); |r| > |f| + 5 && r[|r| - |f|..] == f
    ensures m.Entra? ==> r[..5] == "Entra"
    ensures m.Sale? ==> r[..4] == "Sale"
  {
    var w := if m.Entra? then "Entra" else "Sale";
    var f := FormatTime(m.at);
    var r := w + (" a las " + f);
    assert |r| == |w| + 7 + |f|;
    assert r[..|w|] == w;
    assert r[|r| - |f|..] == (" a las " + f)[7..] == f;
    r
  }

  /** A formatted time has no capital E: only digits and a colon. */
  lemma ClockHasNoE(f: string)
    requires ClockShape(f)
    ensures 'E' !in f
  {
    forall i | 0 <= i < |f| ensures f[i] != 'E' {
      if i < |f| - 3 {
        assert f[i] == f[..|f| - 3][i];
      } else if i > |f| - 3 {
        assert f[i] == f[|f| - 2..][i - (|f| - 2)];
      }
    }
  }

  /** "Sale a las " adds no capital E. */
  lemma NoEAfterPrefix(f: string)
    requires 'E' !in f
    ensures 'E' !in "Sale" + (" a las " + f)
  {
    var t := "Sale" + (" a las " + f);
    forall i | 0 <= i < |t| ensures t[i] != 'E' {
      if i >= 11 {
        assert t[i] == f[i - 11];
      }
    }
  }

  /** An Entra entry's text contains "Entra": it starts with it. */
  lemma EntraTextIncludes(at: nat)
    ensures Includes(MovementText(Entra(at)), "Entra")
  {
    var t := "Entra a las " + FormatTime(at);
    assert t[0..5] == "Entra";
    assert OccursAt(t, "Entra", 0);
  }

  /** A Sale entry's text has no capital E, so no "Entra". */
  lemma SaleTextExcludes(at: nat)
    ensures !Includes(MovementText(Sale(at)), "Entra")
  {
    var f := FormatTime(at);
    var t := MovementText(Sale(at));
    ClockHasNoE(f);
    NoEAfterPrefix(f);
    assert t == "Sale" + (" a las " + f);
    MissingLeadNotIncluded(t, "Entra");
  }

  /** The `.includes('Entra')` test the drop handlers run on a stored entry
      recovers exactly its tag. */
  lemma EntraTestRecoversTag(m: Movement)
    ensures Includes(MovementText(m), "Entra") <==> m.Entra?
  {
    if m.Entra? {
      EntraTextIncludes(m.at);
    } else {
      SaleTextExcludes(m.at);
    }
  }

  /** The guard of app.js:375 and app.js:402 on the stored text: the last
      entry says "Entra". It holds exactly when the last entry is Entra. */
  function LastSaysEntra(h: seq<Movement>): (b: bool)
    ensures b <==> |h| > 0 && h[|h| - 1].Entra?
  {
    if |h| == 0 then false
    else
      EntraTestRecoversTag(h[|h| - 1]);
      Includes(MovementText(h[|h| - 1]), "Entra")
  }

  /** The last entry is an Entra: what the text test of LastSaysEntra
      decides, stated on the entries themselves. */
  predicate EndsInEntra(h: seq<Movement>) {
    |h| > 0 && h[|h| - 1].Entra?
  }

  /** No two consecutive entries have the same direction. */
  ghost predicate Alternating(h: seq<Movement>) {
    forall i :: 0 <= i < |h| - 1 ==> h[i].Entra? != h[i + 1].Entra?
  }

  /** The entry `logMovement` builds from the player's current status: an
      Entra exactly for a field player, stamped with the match clock. */
  function Stamp(s: Status, now: nat): (r: Movement)
    ensures r.at == now
    ensures r.Entra? <==> s == Field
  {
    if s == Field then Entra(now) else Sale(now)
  }

  /** `logMovement(player)`: exactly one entry more, tagged by the current
      status and stamped with the match clock; nothing else changes. */
  function Logged(p: Player, now: nat): (r: Player)
    ensures r.(history := p.history) == p
    ensures |r.history| == |p.history| + 1 && r.history[..|p.history|] == p.history
    ensures r.history[|p.history|].at == now
    ensures r.history[|p.history|].Entra? <==> p.status == Field
  {
    p.(history := p.history + [Stamp(p.status, now)])
  }

  // ---------------------------------------------------------------------
  // Drops on empty space
  // ---------------------------------------------------------------------

  /** A drop on empty pitch (app.js:372-377): the player is on the field at
      the drop point and the history ends in Entra; an Entra is added only
      when the history did not already end in one, so this never logs two
      Entra in a row. */
  function FieldDrop(p: Player, x: real, y: real, now: nat): (r: Player)
    ensures r.status == Field && r.x == x && r.y == y
    ensures r.(status := p.status, x := p.x, y := p.y, history := p.history) == p
    ensures EndsInEntra(r.history)
    ensures r.history == p.history || r.history == p.history + [Entra(now)]
    ensures r.history != p.history <==> !EndsInEntra(p.history)
  {
    var q := p.(status := Field, x := x, y := y);
    if !EndsInEntra(p.history) then Logged(q, now) else q
  }

  /** A drop on empty bench (app.js:400-404): the player is on the bench at
      the sentinel position; a Sale is added exactly when the history ended
      in Entra. A bench player whose history ends in Sale, or is empty, logs
      nothing; one that reached the bench by a paused swap still ends in
      Entra and gets a Sale (PausedSwapThenBenchDropLogsSale). */
  function BenchDrop(p: Player, now: nat): (r: Player)
    ensures r.status == Bench && r.x == 0.0 && r.y == 0.0
    ensures r.(status := p.status, x := p.x, y := p.y, history := p.history) == p
    ensures !EndsInEntra(r.history)
    ensures r.history == if EndsInEntra(p.history) then p.history + [Sale(now)] else p.history
  {
    var q := p.(status := Bench, x := 0.0, y := 0.0);
    if EndsInEntra(p.history) then Logged(q, now) else q
  }

  /** Plain drops keep a history alternating: what they append always
      differs from the entry before it. */
  lemma DropsKeepAlternation(p: Player, x: real, y: real, now: nat)
    requires Alternating(p.history)
    ensures Alternating(FieldDrop(p, x, y, now).history)
    ensures Alternating(BenchDrop(p, now).history)
  {
    var h := p.history;
    if !EndsInEntra(h) {
      AppendKeepsAlternation(h, Entra(now));
    } else {
      AppendKeepsAlternation(h, Sale(now));
    }
  }

  /** Appending an entry of the other direction than the last one keeps a
      history alternating. */
  lemma AppendKeepsAlternation(h: seq<Movement>, m: Movement)
    requires Alternating(h)
    requires |h| > 0 ==> h[|h| - 1].Entra? != m.Entra?
    ensures Alternating(h + [m])
  {
    var g := h + [m];
    forall i | 0 <= i < |g| - 1 ensures g[i].Entra? != g[i + 1].Entra? {
      if i < |h| - 1 {
        assert g[i] == h[i] && g[i + 1] == h[i + 1];
      }
    }
  }

  /** As written, a starter (no history yet) that is only moved around the
      pitch gets an Entra, although it never left the field. */
  lemma StarterRepositionLogsEntra(p: Player, x: real, y: real, now: nat)
    requires p.status == Field && p.history == []
    ensures FieldDrop(p, x, y, now).history == [Entra(now)]
  {
  }

  /** As written, a starter (no history yet) dropped on the bench logs no
      Sale: its exit is not recorded. */
  lemma StarterBenchedUnlogged(p: Player, now: nat)
    requires p.status == Field && p.history == []
    ensures BenchDrop(p, now).history == []
  {
  }

  // ---------------------------------------------------------------------
  // Swap
  // ---------------------------------------------------------------------

  /** `p` takes the place of `q`: its status and position. */
  function TakePlace(p: Player, q: Player): Player {
    p.(status := q.status, x := q.x, y := q.y)
  }

  /** The state part of `handleSmartSwap` (app.js:411-423): players `a` and
      `b` exchange status and position; nobody else changes. */
  function SwapSeats(ps: seq<Player>, a: nat, b: nat): (r: seq<Player>)
    requires a < |ps| && b < |ps| && a != b
    ensures |r| == |ps|
    ensures r[a].status == ps[b].status && r[a].x == ps[b].x && r[a].y == ps[b].y
    ensures r[b].status == ps[a].status && r[b].x == ps[a].x && r[b].y == ps[a].y
    ensures r[a].(status := ps[a].status, x := ps[a].x, y := ps[a].y) == ps[a]
    ensures r[b].(status := ps[b].status, x := ps[b].x, y := ps[b].y) == ps[b]
    ensures forall k :: 0 <= k < |ps| && k != a && k != b ==> r[k] == ps[k]
  {
    ps[a := TakePlace(ps[a], ps[b])][b := TakePlace(ps[b], ps[a])]
  }

  /** Swapping is symmetric in its two players. */
  lemma SwapSymmetric(ps: seq<Player>, a: nat, b: nat)
    requires a < |ps| && b < |ps| && a != b
    ensures SwapSeats(ps, a, b) == SwapSeats(ps, b, a)
  {
  }

  /** Swapping the same two players again restores everything. */
  lemma SwapInvolutive(ps: seq<Player>, a: nat, b: nat)
    requires a < |ps| && b < |ps| && a != b
    ensures SwapSeats(SwapSeats(ps, a, b), a, b) == ps
  {
  }

  /** A swap never changes how many players are on the field. */
  lemma SwapKeepsFieldCount(ps: seq<Player>, a: nat, b: nat)
    requires a < |ps| && b < |ps| && a != b
    ensures FieldCount(SwapSeats(ps, a, b)) == FieldCount(ps)
  {
    var p1 := ps[a := TakePlace(ps[a], ps[b])];
    FieldCountUpdate(ps, a, TakePlace(ps[a], ps[b]));
    FieldCountUpdate(p1, b, TakePlace(ps[b], ps[a]));
  }

  /** `handleSmartSwap` in full: the exchange, then one entry for each of
      the two players when the clock is running and none when it is
      paused. */
  function Swapped(ps: seq<Player>, a: nat, b: nat, running: bool, now: nat): (r: seq<Player>)
    requires a < |ps| && b < |ps| && a != b
    ensures |r| == |ps|
    ensures forall k :: 0 <= k < |ps| && k != a && k != b ==> r[k] == ps[k]
    ensures r[a].(history := ps[a].history) == SwapSeats(ps, a, b)[a]
    ensures r[b].(history := ps[b].history) == SwapSeats(ps, a, b)[b]
    ensures r[a].history == ps[a].history + (if running then [Stamp(ps[b].status, now)] else [])
    ensures r[b].history == ps[b].history + (if running then [Stamp(ps[a].status, now)] else [])
  {
    var s := SwapSeats(ps, a, b);
    if running then s[a := Logged(s[a], now)][b := Logged(s[b], now)] else s
  }

  /** As written, a running swap of two field players appends an Entra to
      both histories: player `a`, whose history already ended in Entra,
      has two Entra entries in a row (and so does `b` when its history
      ended in Entra; a starter with an empty history gets its first). */
  lemma FieldSwapRelogsEntra(ps: seq<Player>, a: nat, b: nat, now: nat)
    requires a < |ps| && b < |ps| && a != b
    requires ps[a].status == Field && ps[b].status == Field
    requires EndsInEntra(ps[a].history)
    ensures var h := Swapped(ps, a, b, true, now)[a].history;
            |h| >= 2 && h[|h| - 2].Entra? && h[|h| - 1].Entra?
  {
  }

  /** As written, a paused swap logs nothing, so a field player whose
      history ends in Entra can reach the bench with that Entra last; a
      later plain drop on the bench then logs a Sale for a player who was
      already on the bench, and the player who went on has no Entra. */
  lemma PausedSwapThenBenchDropLogsSale(ps: seq<Player>, a: nat, b: nat, now: nat, later: nat)
    requires a < |ps| && b < |ps| && a != b
    requires ps[a].status == Field && ps[b].status == Bench
    requires EndsInEntra(ps[a].history)
    ensures var s := Swapped(ps, a, b, false, now);
            s[a].status == Bench && s[b].status == Field &&
            s[b].history == ps[b].history &&
            BenchDrop(s[a], later).history == ps[a].history + [Sale(later)]
  {
    var s := Swapped(ps, a, b, false, now);
    assert s[a].history == ps[a].history;
  }

  // ---------------------------------------------------------------------
  // Clock tick
  // ---------------------------------------------------------------------

  /** One second for one player: only a field player accrues time, by
      exactly one second; nothing else changes. */
  function Ticked(p: Player): (r: Player)
    ensures r.(time := p.time) == p
    ensures p.time <= r.time <= p.time + 1
    ensures r.time > p.time <==> p.status == Field
  {
    if p.status == Field then p.(time := p.time + 1) else p
  }

  /** One second for the squad (the loop of app.js:132-137): same players
      in the same order, each field player one second more, everything
      else as it was. */
  function TickPlayers(ps: seq<Player>): (r: seq<Player>)
    ensures |r| == |ps|
    ensures forall k :: 0 <= k < |ps| ==>
              r[k].(time := ps[k].time) == ps[k] &&
              (r[k].time == ps[k].time + 1 <==> ps[k].status == Field) &&
              (r[k].time != ps[k].time + 1 ==> r[k].time == ps[k].time)
  {
    seq(|ps|, k requires 0 <= k < |ps| => Ticked(ps[k]))
  }

  /** `n` consecutive ticks with nobody moved. */
  function Ticks(ps: seq<Player>, n: nat): seq<Player> {
    if n == 0 then ps else TickPlayers(Ticks(ps, n - 1))
  }

  /** Lockstep accrual: after `n` ticks every field player has played `n`
      more seconds and every bench player none; nothing else changes. */
  lemma {:induction false} TicksAccrue(ps: seq<Player>, n: nat)
    ensures |Ticks(ps, n)| == |ps|
    ensures forall k :: 0 <= k < |ps| ==>
              Ticks(ps, n)[k] == ps[k].(time := ps[k].time + if ps[k].status == Field then n else 0)
  {
    if n > 0 {
      TicksAccrue(ps, n - 1);
    }
  }

  /** Ninety seconds into a Fútbol 7 match with no changes: the seven
      starters show 90 seconds, the seven substitutes 0. */
  lemma NinetySecondsOfF7(color: string)
    ensures var ps := Ticks(InitialSquad(F7, color), 90);
            |ps| == 14 &&
            forall k :: 0 <= k < 14 ==> ps[k].time == if k < 7 then 90 else 0
  {
    TicksAccrue(InitialSquad(F7, color), 90);
  }

  // ---------------------------------------------------------------------
  // The per-player invariant the engine keeps
  // ---------------------------------------------------------------------

  /** Entries are in the order of the match clock. */
  ghost predicate Chronological(h: seq<Movement>) {
    forall i :: 0 <= i < |h| - 1 ==> h[i].at <= h[i + 1].at
  }

  /** What holds of every record at match second `now`: it has not played
      longer than the match has run, a bench player sits at the sentinel,
      its history is stamped in clock order and not in the future, and its
      name is non-blank and trimmed. */
  ghost predicate WellKept(p: Player, now: nat) {
    p.time <= now &&
    (p.status == Bench ==> p.x == 0.0 && p.y == 0.0) &&
    (forall i :: 0 <= i < |p.history| ==> p.history[i].at <= now) &&
    Chronological(p.history) &&
    p.name != [] && !IsJsSpace(p.name[0]) && !IsJsSpace(p.name[|p.name| - 1])
  }

  /** A squad as the engine keeps it at match second `now`: ids are the
      positions 1..N and every record is well kept. */
  ghost predicate Roster(ps: seq<Player>, now: nat) {
    (forall k :: 0 <= k < |ps| ==> ps[k].id == k + 1) &&
    (forall k :: 0 <= k < |ps| ==> WellKept(ps[k], now))
  }

  /** Replacing one record by a well-kept one with the same id keeps the
      squad well kept. */
  lemma RosterUpdate(ps: seq<Player>, k: nat, p: Player, now: nat)
    requires Roster(ps, now) && k < |ps|
    requires p.id == ps[k].id && WellKept(p, now)
    ensures Roster(ps[k := p], now)
  {
    var qs := ps[k := p];
    forall j | 0 <= j < |qs| ensures qs[j].id == j + 1 && WellKept(qs[j], now) {
      if j != k {
        assert qs[j] == ps[j];
      }
    }
  }

  lemma RecruitWellKept(i: nat, starters: nat, color: string, now: nat)
    ensures WellKept(Recruit(i, starters, color), now)
  {
    var name := "Jugador " + Decimal(i);
    assert IsDigit(name[|name| - 1]);
  }

  lemma LoggedWellKept(p: Player, now: nat)
    requires WellKept(p, now)
    ensures WellKept(Logged(p, now), now)
  {
  }

  lemma DropsWellKept(p: Player, x: real, y: real, now: nat)
    requires WellKept(p, now)
    ensures WellKept(FieldDrop(p, x, y, now), now)
    ensures WellKept(BenchDrop(p, now), now)
  {
    var f := p.(status := Field, x := x, y := y);
    var b := p.(status := Bench, x := 0.0, y := 0.0);
    assert WellKept(f, now) && WellKept(b, now);
    LoggedWellKept(f, now);
    LoggedWellKept(b, now);
    assert FieldDrop(p, x, y, now) == f || FieldDrop(p, x, y, now) == Logged(f, now);
    assert BenchDrop(p, now) == b || BenchDrop(p, now) == Logged(b, now);
  }

  lemma SwappedWellKept(ps: seq<Player>, a: nat, b: nat, running: bool, now: nat)
    requires a < |ps| && b < |ps| && a != b
    requires forall k :: 0 <= k < |ps| ==> WellKept(ps[k], now)
    ensures forall k :: 0 <= k < |ps| ==> WellKept(Swapped(ps, a, b, running, now)[k], now)
  {
    var s := SwapSeats(ps, a, b);
    assert WellKept(s[a], now) && WellKept(s[b], now);
    if running {
      LoggedWellKept(s[a], now);
      LoggedWellKept(s[b], now);
    }
  }

  lemma TickedWellKept(p: Player, now: nat)
    requires WellKept(p, now)
    ensures WellKept(Ticked(p), now + 1)
  {
  }

  // ---------------------------------------------------------------------
  // Operator edits
  // ---------------------------------------------------------------------

  /** `editPlayerName` accepts an answer that is not cancelled and not
      blank after trimming (app.js:281). */
  predicate NameAccepted(answer: Option<string>): (b: bool)
    ensures b <==> answer.Some? && !AllSpace(answer.value)
  {
    answer.Some? && Trim(answer.value) != []
  }

  /** `editPlayerNumber` accepts an answer that is not cancelled and for
      which `isNaN` is false (app.js:290). */
  predicate NumberAccepted(answer: Option<string>): (b: bool)
    ensures answer.None? ==> !b
    ensures answer.Some? && AllSpace(answer.value) ==> b
  {
    answer.Some? && IsNumericText(answer.value)
  }

  /** An accepted name is stored trimmed, so it is non-blank and has no
      surrounding whitespace; a rejected answer is a cancel or contains
      only whitespace. */
  lemma NameEditOutcome(answer: Option<string>)
    ensures NameAccepted(answer) ==>
              var t := Trim(answer.value);
              t != [] && !IsJsSpace(t[0]) && !IsJsSpace(t[|t| - 1]) && Trim(t) == t
    ensures !NameAccepted(answer) <==> answer.None? || AllSpace(answer.value)
  {
    if answer.Some? {
      TrimIdempotent(answer.value);
    }
  }

  /** Any dorsal the squad was generated with is accepted back, and so is
      a blank answer (it converts to 0). */
  lemma NumberEditAccepts(n: nat, blank: string)
    requires AllSpace(blank)
    ensures NumberAccepted(Some(Decimal(n)))
    ensures NumberAccepted(Some(blank))
  {
    DigitsAreNumeric(Decimal(n));
  }
}
