/** The match clock and player-state engine of app.js: the globals
    `players`, `masterTime`, `isRunning` and `currentMode` (app.js:2-6),
    with `COLORS.primary` (app.js:8-11), as one `Session` object, and the
    handlers that change them. Each handler's effect on the player list is
    stated through the functions of module Squad and module Formation. */
module Match {
  import opened Wrappers
  import opened JsText
  import opened Squad
  import opened Formation

  class Session {
    var players: seq<Player>
    var masterTime: nat
    var isRunning: bool
    var mode: Mode
    var teamColor: string

    /** Ids are the positions 1..N the squad was generated with, and every
        record is well kept at the current match second. So ids are unique,
        which is what lets a handler find a player by id, and nobody has
        played longer than the match clock has run. */
    ghost predicate Valid(): (b: bool)
      reads this
      ensures b ==> forall j, k :: 0 <= j < k < |players| ==> players[j].id != players[k].id
      ensures b ==> forall k :: 0 <= k < |players| ==> players[k].time <= masterTime
    {
      Roster(players, masterTime)
    }

    /** The state before the setup dialog is confirmed (app.js:2-11). */
    constructor ()
      ensures Valid()
      ensures players == [] && masterTime == 0 && !isRunning
      ensures mode == F7 && teamColor == "#58a6ff"
    {
      players := [];
      masterTime := 0;
      isRunning := false;
      mode := F7;
      teamColor := "#58a6ff";
    }

    /** `spawnInitialPlayers` (app.js:91-111): rebuilds the squad for the
        current mode. The clock is left alone. */
    method SpawnInitialPlayers()
      modifies this
      ensures Valid()
      ensures players == InitialSquad(mode, teamColor)
      ensures masterTime == old(masterTime) && isRunning == old(isRunning)
      ensures mode == old(mode) && teamColor == old(teamColor)
    {
      var count := SquadSize(mode);
      var starters := StartersCount(mode);
      players := [];
      var i := 1;
      while i <= count
        invariant 1 <= i <= count + 1
        invariant masterTime == old(masterTime) && isRunning == old(isRunning)
        invariant mode == old(mode) && teamColor == old(teamColor)
        invariant players == InitialSquad(mode, teamColor)[..i - 1]
      {
        players := players + [Recruit(i, starters, teamColor)];
        i := i + 1;
      }
      assert players == InitialSquad(mode, teamColor);
      forall k | 0 <= k < |players| ensures WellKept(players[k], masterTime) {
        RecruitWellKept(k + 1, starters, teamColor, masterTime);
      }
    }

    /** The state part of `confirmSetup` (app.js:55-68): takes the chosen
        shirt colour and mode and spawns the squad. */
    method ConfirmSetup(m: Mode, color: string)
      modifies this
      ensures Valid()
      ensures mode == m && teamColor == color
      ensures players == InitialSquad(m, color)
      ensures masterTime == old(masterTime) && isRunning == old(isRunning)
    {
      teamColor := color;
      mode := m;
      SpawnInitialPlayers();
    }

    /** `toggleGame` (app.js:113-126): play becomes pause and pause play. */
    method ToggleGame()
      requires Valid()
      modifies this
      ensures Valid()
      ensures isRunning == !old(isRunning)
      ensures players == old(players) && masterTime == old(masterTime)
      ensures mode == old(mode) && teamColor == old(teamColor)
    {
      isRunning := !isRunning;
    }

    /** `tick` (app.js:128-138): one second of match time, and one second
        for every field player. The host timer runs only between a
        `toggleGame` that starts play and the next pause or reset, so a
        tick only ever happens while the clock is running. */
    method Tick()
      requires Valid() && isRunning
      modifies this
      ensures Valid()
      ensures masterTime == old(masterTime) + 1
      ensures players == TickPlayers(old(players))
      ensures isRunning == old(isRunning) && mode == old(mode) && teamColor == old(teamColor)
    {
      masterTime := masterTime + 1;
      var i := 0;
      while i < |players|
        invariant i <= |players| == |old(players)|
        invariant masterTime == old(masterTime) + 1 && isRunning == old(isRunning)
        invariant mode == old(mode) && teamColor == old(teamColor)
        invariant forall j :: 0 <= j < i ==> players[j] == Ticked(old(players)[j])
        invariant forall j :: i <= j < |players| ==> players[j] == old(players)[j]
      {
        if players[i].status == Field {
          players := players[i := players[i].(time := players[i].time + 1)];
        }
        i := i + 1;
      }
      forall k | 0 <= k < |players| ensures WellKept(players[k], masterTime) {
        TickedWellKept(old(players)[k], old(masterTime));
      }
    }

    /** `resetGame` (app.js:436-445): clock to zero, paused, fresh squad. */
    method ResetGame()
      modifies this
      ensures Valid()
      ensures masterTime == 0 && !isRunning
      ensures players == InitialSquad(mode, teamColor)
      ensures mode == old(mode) && teamColor == old(teamColor)
    {
      masterTime := 0;
      isRunning := false;
      SpawnInitialPlayers();
    }

    /** The mode selector's change handler (app.js:73-77): a new mode
        resets the match. */
    method ChangeMode(m: Mode)
      modifies this
      ensures Valid()
      ensures mode == m && masterTime == 0 && !isRunning
      ensures players == InitialSquad(m, teamColor)
      ensures teamColor == old(teamColor)
    {
      mode := m;
      ResetGame();
    }

    /** In a valid session, `FindPlayer` finds id `id` at index `id - 1`
        exactly when that index exists. */
    method Lookup(id: nat) returns (r: Option<nat>)
      requires Valid()
      ensures r.Some? <==> 1 <= id <= |players|
      ensures r.Some? ==> r.value == id - 1
    {
      r := FindPlayer(players, id);
      if 1 <= id <= |players| {
        assert players[id - 1].id == id;
      }
    }

    /** `editPlayerName` (app.js:278-285), with the prompt's answer given
        (None for Cancel): an unknown id, a cancel or a blank answer change
        nothing; otherwise the name becomes the trimmed answer. */
    method EditPlayerName(id: nat, answer: Option<string>)
      requires Valid()
      modifies this
      ensures Valid()
      ensures masterTime == old(masterTime) && isRunning == old(isRunning)
      ensures mode == old(mode) && teamColor == old(teamColor)
      ensures !(1 <= id <= |old(players)|) || !NameAccepted(answer) ==> players == old(players)
      ensures 1 <= id <= |old(players)| && NameAccepted(answer) ==>
                players == old(players)[id - 1 := old(players)[id - 1].(name := Trim(answer.value))]
    {
      var found := Lookup(id);
      if found.Some? && answer.Some? && Trim(answer.value) != [] {
        var k := found.value;
        NameEditOutcome(answer);
        var renamed := players[k].(name := Trim(answer.value));
        RosterUpdate(players, k, renamed, masterTime);
        players := players[k := renamed];
      }
    }

    /** `editPlayerNumber` (app.js:287-294), with the prompt's answer given
        (None for Cancel): an unknown id, a cancel or an answer `isNaN`
        rejects change nothing; otherwise the dorsal becomes the answer as
        typed (untrimmed). */
    method EditPlayerNumber(id: nat, answer: Option<string>)
      requires Valid()
      modifies this
      ensures Valid()
      ensures masterTime == old(masterTime) && isRunning == old(isRunning)
      ensures mode == old(mode) && teamColor == old(teamColor)
      ensures !(1 <= id <= |old(players)|) || !NumberAccepted(answer) ==> players == old(players)
      ensures 1 <= id <= |old(players)| && NumberAccepted(answer) ==>
                players == old(players)[id - 1 := old(players)[id - 1].(number := answer.value)]
    {
      var found := Lookup(id);
      if found.Some? && answer.Some? && IsNumericText(answer.value) {
        var k := found.value;
        var renumbered := players[k].(number := answer.value);
        RosterUpdate(players, k, renumbered, masterTime);
        players := players[k := renumbered];
      }
    }

    /** `placeOnField` (app.js:311-325), coordinates only. `renderPlayers`
        calls it for field players alone. */
    method PlaceOnField(k: nat)
      requires Valid() && k < |players| && players[k].status == Field
      modifies this
      ensures Valid()
      ensures players == old(players)[k := Placed(old(players), k, mode)]
      ensures masterTime == old(masterTime) && isRunning == old(isRunning)
      ensures mode == old(mode) && teamColor == old(teamColor)
    {
      var p := players[k];
      if p.x == 0.0 && p.y == 0.0 {
        var c := SlotCell(mode, FieldRank(players, k));
        var placed := p.(x := c.0 as real, y := c.1 as real);
        RosterUpdate(players, k, placed, masterTime);
        players := players[k := placed];
      }
    }

    /** The placement pass of `renderPlayers` (app.js:165-170): every field
        player goes through `placeOnField`; afterwards no field player sits
        at the sentinel, and bench players are untouched. */
    method ArrangeField()
      requires Valid()
      modifies this
      ensures Valid()
      ensures |players| == |old(players)|
      ensures forall i :: 0 <= i < |players| ==> players[i] == ArrangedAt(old(players), i, mode)
      ensures masterTime == old(masterTime) && isRunning == old(isRunning)
      ensures mode == old(mode) && teamColor == old(teamColor)
    {
      var k := 0;
      while k < |players|
        invariant Valid()
        invariant k <= |players| == |old(players)|
        invariant masterTime == old(masterTime) && isRunning == old(isRunning)
        invariant mode == old(mode) && teamColor == old(teamColor)
        invariant forall i :: 0 <= i < k ==> players[i] == ArrangedAt(old(players), i, mode)
        invariant forall i :: k <= i < |players| ==> players[i] == old(players)[i]
      {
        ArrangeStep(k, old(players));
        k := k + 1;
      }
    }

    /** One round of the placement pass: the player at `k` goes through
        `placeOnField` when it is on the field. `orig` is the list the pass
        started from; the players before `k` are already arranged. */
    method ArrangeStep(k: nat, ghost orig: seq<Player>)
      requires Valid() && k < |players| == |orig|
      requires forall i :: 0 <= i < k ==> players[i] == ArrangedAt(orig, i, mode)
      requires forall i :: k <= i < |players| ==> players[i] == orig[i]
      modifies this
      ensures Valid() && |players| == |orig|
      ensures forall i :: 0 <= i <= k ==> players[i] == ArrangedAt(orig, i, mode)
      ensures forall i :: k < i < |players| ==> players[i] == orig[i]
      ensures masterTime == old(masterTime) && isRunning == old(isRunning)
      ensures mode == old(mode) && teamColor == old(teamColor)
    {
      ghost var prev := players;
      if players[k].status == Field {
        assert forall i :: 0 <= i < k ==> prev[i].status == orig[i].status;
        PlacedByStatuses(prev, orig, k, mode);
        PlaceOnField(k);
      }
      assert players[k] == ArrangedAt(orig, k, mode);
      assert forall i :: 0 <= i < |players| && i != k ==> players[i] == prev[i];
    }

    /** `logMovement` (app.js:431-434): one entry for the player at `k`,
        tagged by its status and stamped with the match clock. */
    method LogMovement(k: nat)
      requires Valid() && k < |players|
      modifies this
      ensures Valid()
      ensures players == old(players)[k := Logged(old(players)[k], masterTime)]
      ensures masterTime == old(masterTime) && isRunning == old(isRunning)
      ensures mode == old(mode) && teamColor == old(teamColor)
    {
      var logged := players[k].(history := players[k].history + [Stamp(players[k].status, masterTime)]);
      LoggedWellKept(players[k], masterTime);
      RosterUpdate(players, k, logged, masterTime);
      players := players[k := logged];
    }

    /** `handleSmartSwap` (app.js:409-429) for the dragged player at `a`
        and the target at `b`; the drop handlers only call it for two
        different players. */
    method HandleSmartSwap(a: nat, b: nat)
      requires Valid() && a < |players| && b < |players| && a != b
      modifies this
      ensures Valid()
      ensures players == Swapped(old(players), a, b, isRunning, masterTime)
      ensures masterTime == old(masterTime) && isRunning == old(isRunning)
      ensures mode == old(mode) && teamColor == old(teamColor)
    {
      SwappedWellKept(players, a, b, isRunning, masterTime);
      var dragged := players[a];
      var target := players[b];
      players := players[a := dragged.(status := target.status, x := target.x, y := target.y)];
      players := players[b := target.(status := dragged.status, x := dragged.x, y := dragged.y)];
      assert players == SwapSeats(old(players), a, b);
      if isRunning {
        LogMovement(a);
        LogMovement(b);
      }
    }

    /** The swap branch both drop handlers share (app.js:367-370 and
        app.js:395-398): the dragged player at `k` swaps with the player
        whose chip is under the drop point. When that id is unknown the
        source fails before writing anything, so nothing changes. */
    method SwapWithChip(k: nat, targetId: nat)
      requires Valid() && k < |players| && targetId != k + 1
      modifies this
      ensures Valid()
      ensures masterTime == old(masterTime) && isRunning == old(isRunning)
      ensures mode == old(mode) && teamColor == old(teamColor)
      ensures players == if 1 <= targetId <= |old(players)|
                         then Swapped(old(players), k, targetId - 1, isRunning, masterTime)
                         else old(players)
    {
      var other := Lookup(targetId);
      if other.Some? {
        HandleSmartSwap(k, other.value);
      }
    }

    /** The guard both plain drops run on the stored history: the player
        has a last entry and its text includes "Entra". */
    static method EndsInEntraText(h: seq<Movement>) returns (b: bool)
      ensures b <==> EndsInEntra(h)
    {
      b := |h| > 0 && LastSaysEntra(h);
    }

    /** The three assignments both plain drops start with: the player at
        `k` gets status `s` and position (`x`, `y`). */
    method Seat(k: nat, s: Status, x: real, y: real)
      requires Valid() && k < |players|
      requires s == Bench ==> x == 0.0 && y == 0.0
      modifies this
      ensures Valid()
      ensures masterTime == old(masterTime) && isRunning == old(isRunning)
      ensures mode == old(mode) && teamColor == old(teamColor)
      ensures players == old(players)[k := old(players)[k].(status := s, x := x, y := y)]
    {
      var moved := players[k].(status := s, x := x, y := y);
      RosterUpdate(players, k, moved, masterTime);
      players := players[k := moved];
    }

    /** The plain branch of `dropToField` (app.js:372-377) for the player
        at `k`. */
    method MoveToField(k: nat, x: real, y: real)
      requires Valid() && k < |players|
      modifies this
      ensures Valid()
      ensures masterTime == old(masterTime) && isRunning == old(isRunning)
      ensures mode == old(mode) && teamColor == old(teamColor)
      ensures players == old(players)[k := FieldDrop(old(players)[k], x, y, masterTime)]
    {
      ghost var p := players[k];
      var h := players[k].history;
      Seat(k, Field, x, y);
      var wasIn := EndsInEntraText(h);
      if !wasIn {
        LogMovement(k);
      }
      assert players[k] == FieldDrop(p, x, y, masterTime);
    }

    /** The plain branch of `dropToBench` (app.js:400-404) for the player
        at `k`. */
    method MoveToBench(k: nat)
      requires Valid() && k < |players|
      modifies this
      ensures Valid()
      ensures masterTime == old(masterTime) && isRunning == old(isRunning)
      ensures mode == old(mode) && teamColor == old(teamColor)
      ensures players == old(players)[k := BenchDrop(old(players)[k], masterTime)]
    {
      ghost var p := players[k];
      var h := players[k].history;
      Seat(k, Bench, 0.0, 0.0);
      var wasIn := EndsInEntraText(h);
      if wasIn {
        LogMovement(k);
      }
      assert players[k] == BenchDrop(p, masterTime);
    }

    /** `dropToField` (app.js:348-380) for the player with id `id`, dropped
        at (`x`, `y`) percent of the pitch, with `target` the id of the chip
        under the drop point, if any. An unknown player changes nothing; a
        drop on another player's chip is a swap; any other drop puts the
        player on the field at the drop point. */
    method DropToField(id: nat, target: Option<nat>, x: real, y: real)
      requires Valid()
      modifies this
      ensures Valid()
      ensures masterTime == old(masterTime) && isRunning == old(isRunning)
      ensures mode == old(mode) && teamColor == old(teamColor)
      ensures !(1 <= id <= |old(players)|) ==> players == old(players)
      ensures 1 <= id <= |old(players)| && target.Some? && target.value != id ==>
                players == if 1 <= target.value <= |old(players)|
                           then Swapped(old(players), id - 1, target.value - 1, isRunning, masterTime)
                           else old(players)
      ensures 1 <= id <= |old(players)| && !(target.Some? && target.value != id) ==>
                players == old(players)[id - 1 := FieldDrop(old(players)[id - 1], x, y, masterTime)]
    {
      var found := Lookup(id);
      if found.None? {
        return;
      }
      if target.Some? && target.value != id {
        SwapWithChip(found.value, target.value);
      } else {
        MoveToField(found.value, x, y);
      }
    }

    /** `dropToBench` (app.js:382-407) for the player with id `id`, with
        `target` the id of the chip under the drop point, if any. An unknown
        player changes nothing; a drop on another player's chip is a swap;
        any other drop benches the player at the sentinel position. */
    method DropToBench(id: nat, target: Option<nat>)
      requires Valid()
      modifies this
      ensures Valid()
      ensures masterTime == old(masterTime) && isRunning == old(isRunning)
      ensures mode == old(mode) && teamColor == old(teamColor)
      ensures !(1 <= id <= |old(players)|) ==> players == old(players)
      ensures 1 <= id <= |old(players)| && target.Some? && target.value != id ==>
                players == if 1 <= target.value <= |old(players)|
                           then Swapped(old(players), id - 1, target.value - 1, isRunning, masterTime)
                           else old(players)
      ensures 1 <= id <= |old(players)| && !(target.Some? && target.value != id) ==>
                players == old(players)[id - 1 := BenchDrop(old(players)[id - 1], masterTime)]
    {
      var found := Lookup(id);
      if found.None? {
        return;
      }
      if target.Some? && target.value != id {
        SwapWithChip(found.value, target.value);
      } else {
        MoveToBench(found.value);
      }
    }
  }
}
