/** The netplay hooks of Mega Man Battle Network 2
    (tango/src/game/bn2/hooks.rs): the game's random number generator and
    how each side seeds it, the choice of battle background, the rx packets
    written into the link, the checks an input pair must pass before it is
    injected, and the round results each side records.

    The emulator core, the netplay session and the random draws are not
    part of this model: a draw is a number passed in, and what the emulator
    would produce (the outgoing tx packet, the packet sequence number) is a
    parameter. */
module Bn2Hooks {
  import opened Bytes
  import Saves

  // ---------------------------------------------------------------------
  // The game's RNG

  const RNG_MULTIPLEXER: bv32 := 0x873ca9e5
  const RNG_INITIAL_STATE: bv32 := 0xa338244f

  /** `step_rng`: shift left by one, add back the bit shifted out and one
      (wrapping), then XOR with a constant. The shift and add are a rotation
      by one bit. */
  function StepRng(seed: bv32): (r: bv32)
    ensures r == (seed.RotateLeft(1) + 1) ^ RNG_MULTIPLEXER
  {
    ((seed << 1) + (seed >> 0x1f) + 1) ^ RNG_MULTIPLEXER
  }

  /** The step run backwards. */
  function UnstepRng(state: bv32): (r: bv32)
  {
    ((state ^ RNG_MULTIPLEXER) - 1).RotateRight(1)
  }

  /** The step is a permutation of the 2^32 states: no two seeds step to the
      same state, and every state has a predecessor. */
  lemma StepRngBijective(seed: bv32, state: bv32)
    ensures UnstepRng(StepRng(seed)) == seed
    ensures StepRng(UnstepRng(state)) == state
  {
  }

  /** The state after `n` steps from `seed`. */
  function RngIter(seed: bv32, n: nat): (r: bv32)
  {
    if n == 0 then seed else StepRng(RngIter(seed, n - 1))
  }

  /** `m + n` steps are `m` steps followed by `n` steps. */
  lemma {:induction false} RngIterAdd(seed: bv32, m: nat, n: nat)
    ensures RngIter(seed, m + n) == RngIter(RngIter(seed, m), n)
  {
    if n > 0 {
      RngIterAdd(seed, m, n - 1);
    }
  }

  /** Iterating a permutation is a permutation: distinct seeds stay
      distinct after any number of steps. */
  lemma {:induction false} RngIterInjective(a: bv32, b: bv32, n: nat)
    requires a != b
    ensures RngIter(a, n) != RngIter(b, n)
  {
    if n > 0 {
      RngIterInjective(a, b, n - 1);
      StepRngBijective(RngIter(a, n - 1), 0);
      StepRngBijective(RngIter(b, n - 1), 0);
    }
  }

  /** `generate_rng_state`: `draw` steps from the initial state, `draw`
      being the number drawn from `0..0x10000`. */
  method GenerateRngState(draw: nat) returns (state: bv32)
    requires draw < 0x1_0000
    ensures state == RngIter(RNG_INITIAL_STATE, draw)
  {
    state := RNG_INITIAL_STATE;
    var i := 0;
    while i < draw
      invariant 0 <= i <= draw
      invariant state == RngIter(RNG_INITIAL_STATE, i)
    {
      state := StepRng(state);
      i := i + 1;
    }
  }

  /** The RNG state a side sets when the battle starts from the comm menu:
      two states are generated, from the draws `first` and `second`; the
      offerer's primary takes the first and the answerer's the second. */
  function PrimaryRngState(isOfferer: bool, first: nat, second: nat): (r: bv32)
    ensures r == RngIter(RNG_INITIAL_STATE, if isOfferer then first else second)
  {
    if isOfferer then RngIter(RNG_INITIAL_STATE, first) else RngIter(RNG_INITIAL_STATE, second)
  }

  /** The shadow, which replays the opponent, takes the other one. */
  function ShadowRngState(isOfferer: bool, first: nat, second: nat): (r: bv32)
    ensures r == RngIter(RNG_INITIAL_STATE, if isOfferer then second else first)
  {
    if isOfferer then RngIter(RNG_INITIAL_STATE, second) else RngIter(RNG_INITIAL_STATE, first)
  }

  /** With the same draws, a side's shadow starts from exactly the state the
      opponent's primary starts from. */
  lemma ShadowSeedsLikeOpponent(isOfferer: bool, first: nat, second: nat)
    ensures ShadowRngState(isOfferer, first, second) == PrimaryRngState(!isOfferer, first, second)
  {
  }

  // ---------------------------------------------------------------------
  // Battle background

  const BATTLE_BACKGROUNDS: seq<byte> := [0x00, 0x01, 0x02, 0x03, 0x05, 0x08, 0x15, 0x18]

  /** `random_background`: the background at the drawn position. */
  function RandomBackground(draw: nat): (r: byte)
    requires draw < |BATTLE_BACKGROUNDS|
    ensures r in {0x00, 0x01, 0x02, 0x03, 0x05, 0x08, 0x15, 0x18}
  {
    BATTLE_BACKGROUNDS[draw]
  }

  /** Every listed background can be drawn. */
  lemma EveryBackgroundDrawable(b: byte)
    requires b in {0x00, 0x01, 0x02, 0x03, 0x05, 0x08, 0x15, 0x18}
    ensures exists k :: 0 <= k < |BATTLE_BACKGROUNDS| && RandomBackground(k) == b
  {
    if b == 0x00 { assert RandomBackground(0) == b; }
    else if b == 0x01 { assert RandomBackground(1) == b; }
    else if b == 0x02 { assert RandomBackground(2) == b; }
    else if b == 0x03 { assert RandomBackground(3) == b; }
    else if b == 0x05 { assert RandomBackground(4) == b; }
    else if b == 0x08 { assert RandomBackground(5) == b; }
    else if b == 0x15 { assert RandomBackground(6) == b; }
    else { assert RandomBackground(7) == b; }
  }

  // ---------------------------------------------------------------------
  // rx packets

  /** The rx packet both slots get while the comm menu is exchanging data. */
  const INIT_RX: seq<byte> := [0x00, 0x04, 0x00, 0xff, 0xff, 0xff, 0x04, 0x04, 0x04, 0x04, 0x04, 0x04, 0x04, 0x04, 0x04, 0x04]

  /** Packet type byte of an in-battle input packet. */
  const RX_INPUT: byte := 0x05
  /** Where an in-battle packet keeps its sequence number. */
  const RX_SEQNUM_OFFSET: nat := 0xc

  /** `predict_rx` on a value: an in-battle packet with its little-endian
      sequence number advanced by one (wrapping at 2^32); any other packet as
      it is. */
  function PredictedRx(rx: seq<byte>): (r: seq<byte>)
    requires |rx| > 0
    requires rx[0] == RX_INPUT ==> |rx| >= RX_SEQNUM_OFFSET + 4
    ensures |r| == |rx|
    ensures rx[0] != RX_INPUT ==> r == rx
    ensures rx[0] == RX_INPUT ==>
              LeU32(r, RX_SEQNUM_OFFSET) == (LeU32(rx, RX_SEQNUM_OFFSET) as int + 1) % 0x1_0000_0000
              && forall i :: 0 <= i < |rx| && !(RX_SEQNUM_OFFSET <= i < RX_SEQNUM_OFFSET + 4) ==> r[i] == rx[i]
  {
    if rx[0] == RX_INPUT then
      var next := LeBytes32((LeU32(rx, RX_SEQNUM_OFFSET) as int + 1) % 0x1_0000_0000);
      var r := rx[..RX_SEQNUM_OFFSET] + next + rx[RX_SEQNUM_OFFSET + 4..];
      assert r[RX_SEQNUM_OFFSET..RX_SEQNUM_OFFSET + 4] == next;
      r
    else rx
  }

  /** `predict_rx`: advances the sequence number of an in-battle packet in
      place. The source indexes `rx[0]`, and for an in-battle packet the
      bytes `0xc..0x10`. */
  method PredictRx(rx: array<byte>)
    requires rx.Length > 0
    requires rx[0] == RX_INPUT ==> rx.Length >= RX_SEQNUM_OFFSET + 4
    modifies rx
    ensures rx[..] == PredictedRx(old(rx[..]))
  {
    if rx[0] == RX_INPUT {
      var tick := LeU32(rx[..], RX_SEQNUM_OFFSET);
      Saves.WriteLeU32(rx, RX_SEQNUM_OFFSET, (tick as int + 1) % 0x1_0000_0000);
      ghost var r := PredictedRx(old(rx[..]));
      assert r[RX_SEQNUM_OFFSET..RX_SEQNUM_OFFSET + 4] == LeBytes32((tick as int + 1) % 0x1_0000_0000);
      assert forall i :: RX_SEQNUM_OFFSET <= i < RX_SEQNUM_OFFSET + 4 ==>
               r[i] == r[RX_SEQNUM_OFFSET..RX_SEQNUM_OFFSET + 4][i - RX_SEQNUM_OFFSET];
    }
  }

  /** The packet the replayer writes into both rx slots when it has no input
      left: an idle in-battle packet carrying the link's sequence number. */
  function ReplayerIdleRx(seqnum: u32): (r: seq<byte>)
    ensures |r| == 16 && r[0] == RX_INPUT
    ensures LeU32(r, RX_SEQNUM_OFFSET) == seqnum
    ensures r[..RX_SEQNUM_OFFSET] == [0x05, 0x00, 0x00, 0xfc, 0x00, 0x00, 0x00, 0xfc, 0x00, 0xfc, 0x00, 0x00]
  {
    var template: seq<byte> := [0x05, 0x00, 0x00, 0xfc, 0x00, 0x00, 0x00, 0xfc, 0x00, 0xfc, 0x00, 0x00, 0xff, 0xff, 0xff, 0xff];
    var r := template[..RX_SEQNUM_OFFSET] + LeBytes32(seqnum);
    assert r[RX_SEQNUM_OFFSET..] == LeBytes32(seqnum);
    r
  }

  /** Predicting the next packet from an idle packet gives the idle packet
      of the next sequence number. */
  lemma {:induction false} PredictIdleRx(seqnum: u32)
    ensures PredictedRx(ReplayerIdleRx(seqnum)) == ReplayerIdleRx((seqnum as int + 1) % 0x1_0000_0000)
  {
    var p := PredictedRx(ReplayerIdleRx(seqnum));
    var q := ReplayerIdleRx((seqnum as int + 1) % 0x1_0000_0000);
    assert p[..RX_SEQNUM_OFFSET] == q[..RX_SEQNUM_OFFSET];
    LeBytes32OfLeU32(p, RX_SEQNUM_OFFSET);
    LeBytes32OfLeU32(q, RX_SEQNUM_OFFSET);
    assert p[RX_SEQNUM_OFFSET..] == p[RX_SEQNUM_OFFSET..RX_SEQNUM_OFFSET + 4];
    assert q[RX_SEQNUM_OFFSET..] == q[RX_SEQNUM_OFFSET..RX_SEQNUM_OFFSET + 4];
    assert p == p[..RX_SEQNUM_OFFSET] + p[RX_SEQNUM_OFFSET..];
    assert q == q[..RX_SEQNUM_OFFSET] + q[RX_SEQNUM_OFFSET..];
  }

  // ---------------------------------------------------------------------
  // Input pairs

  /** One side's input for one tick. */
  datatype Input = Input(localTick: nat, joyflags: bv16, packet: seq<byte>)

  /** The local and remote inputs for one tick. */
  datatype Pair = Pair(local: Input, remote: Input)

  /** A packet remembered for the next tick. */
  datatype Packet = Packet(tick: nat, packet: seq<byte>)

  datatype TickError =
    | LocalRemoteMismatch(currentTick: nat, local: nat, remote: nat)
    | InputTickMismatch(input: nat, currentTick: nat)
    | PacketTickMismatch(packet: nat, currentTick: nat)

  /** The two checks every hook makes on an input pair, in order: the local
      and remote ticks agree, then they are the current tick. */
  function CheckPair(ip: Pair, currentTick: nat): (r: Option<TickError>)
    ensures r.None? <==> ip.local.localTick == ip.remote.localTick == currentTick
    ensures ip.local.localTick != ip.remote.localTick ==>
              r == Some(LocalRemoteMismatch(currentTick, ip.local.localTick, ip.remote.localTick))
  {
    if ip.local.localTick != ip.remote.localTick then
      Some(LocalRemoteMismatch(currentTick, ip.local.localTick, ip.remote.localTick))
    else if ip.local.localTick != currentTick then
      Some(InputTickMismatch(ip.local.localTick, currentTick))
    else None
  }

  /** The pair check followed by the check on the packet saved for this tick. */
  function CheckPairAndPacket(ip: Pair, currentTick: nat, saved: Packet): (r: Option<TickError>)
    ensures r.None? <==> ip.local.localTick == ip.remote.localTick == currentTick && saved.tick == currentTick
    ensures CheckPair(ip, currentTick).Some? ==> r == CheckPair(ip, currentTick)
  {
    match CheckPair(ip, currentTick)
    case Some(e) => Some(e)
    case None => if saved.tick != currentTick then Some(PacketTickMismatch(saved.tick, currentTick)) else None
  }

  /** The joypad register value an input is injected as: the ten button bits
      of the input with the six unused top bits set. */
  function InjectedJoyflags(j: bv16): (r: bv16)
    ensures r & 0x03ff == j & 0x03ff
    ensures r & 0xfc00 == 0xfc00
  {
    j | 0xfc00
  }

  // ---------------------------------------------------------------------
  // Round results

  /** The points in the ROM where a round's result is decided. */
  datatype ResultSignal = SetWin | SetLoss | DamageJudgeWin | DamageJudgeLoss | DamageJudgeDraw

  datatype BattleResult = Win | Loss | Draw

  function Opposite(r: BattleResult): (o: BattleResult)
  {
    match r
    case Win => Loss
    case Loss => Win
    case Draw => Draw
  }

  /** What the primary records: the ROM's own verdict; on a damage-judge
      draw, what the round decides for draws (`onDraw`). */
  function PrimaryResult(s: ResultSignal, onDraw: BattleResult): (r: BattleResult)
    ensures s == SetWin || s == DamageJudgeWin ==> r == Win
    ensures s == SetLoss || s == DamageJudgeLoss ==> r == Loss
    ensures s == DamageJudgeDraw ==> r == onDraw
  {
    match s
    case SetWin => Win
    case SetLoss => Loss
    case DamageJudgeWin => Win
    case DamageJudgeLoss => Loss
    case DamageJudgeDraw => onDraw
  }

  /** What the shadow records: it runs the opponent's game, so a win there
      is a loss for this side and the reverse. */
  function ShadowResult(s: ResultSignal, onDraw: BattleResult): (r: BattleResult)
    ensures s == SetWin || s == DamageJudgeWin ==> r == Loss
    ensures s == SetLoss || s == DamageJudgeLoss ==> r == Win
    ensures s == DamageJudgeDraw ==> r == onDraw
  {
    match s
    case SetWin => Loss
    case SetLoss => Win
    case DamageJudgeWin => Loss
    case DamageJudgeLoss => Win
    case DamageJudgeDraw => onDraw
  }

  /** What the replayer records: the ROM's verdict, a plain draw on a
      damage-judge draw. */
  function ReplayerResult(s: ResultSignal): (r: BattleResult)
    ensures s == SetWin || s == DamageJudgeWin ==> r == Win
    ensures s == SetLoss || s == DamageJudgeLoss ==> r == Loss
    ensures s == DamageJudgeDraw ==> r == Draw
  {
    match s
    case SetWin => Win
    case SetLoss => Loss
    case DamageJudgeWin => Win
    case DamageJudgeLoss => Loss
    case DamageJudgeDraw => Draw
  }

  /** The shadow mirrors the primary on every decided round; the replayer
      agrees with the primary except on draws, which it records as draws. */
  lemma ResultsAgree(s: ResultSignal, onDraw: BattleResult)
    ensures s != DamageJudgeDraw ==> ShadowResult(s, onDraw) == Opposite(PrimaryResult(s, onDraw))
    ensures s == DamageJudgeDraw ==> ShadowResult(s, onDraw) == PrimaryResult(s, onDraw)
    ensures s != DamageJudgeDraw ==> ReplayerResult(s) == PrimaryResult(s, onDraw)
    ensures ReplayerResult(s) == PrimaryResult(s, Draw)
  {
  }

  // ---------------------------------------------------------------------
  // Seats

  /** Which side of a link an emulator runs. */
  datatype Role = PrimaryRole | ShadowRole | ReplayerRole

  /** The player index the link-is-player-2 hook reports: the primary and the
      replayer play their own seat, the shadow the remote one. */
  function ReportedPlayerIndex(role: Role, localPlayerIndex: nat): (r: nat)
    requires localPlayerIndex < 2
    ensures r < 2
    ensures role != ShadowRole ==> r == localPlayerIndex
    ensures role == ShadowRole ==> r != localPlayerIndex
  {
    match role
    case PrimaryRole => localPlayerIndex
    case ShadowRole => 1 - localPlayerIndex
    case ReplayerRole => localPlayerIndex
  }

  /** A primary and its own shadow sit in different seats, and the shadow
      sits where the opponent's primary (whose local index is the other one)
      sits; a replay plays the seat of the side that recorded it. */
  lemma SeatsConsistent(localPlayerIndex: nat)
    requires localPlayerIndex < 2
    ensures ReportedPlayerIndex(ShadowRole, localPlayerIndex) != ReportedPlayerIndex(PrimaryRole, localPlayerIndex)
    ensures ReportedPlayerIndex(ShadowRole, localPlayerIndex) == ReportedPlayerIndex(PrimaryRole, 1 - localPlayerIndex)
    ensures ReportedPlayerIndex(ReplayerRole, localPlayerIndex) == ReportedPlayerIndex(PrimaryRole, localPlayerIndex)
  {
  }

  // ---------------------------------------------------------------------
  // The primary's hooks

  /** The primary's match and round, and the parts of its emulator the hooks
      touch. */
  class Primary {
    /** Whether a match is in progress. */
    var inMatch: bool
    var isOfferer: bool
    /** Whether the match has a round in progress. */
    var inRound: bool
    var committed: bool
    var currentTick: nat
    var localPlayerIndex: nat
    /** The game's RNG state. */
    var rngState: bv32
    /** The background the battle was started with. */
    var background: Option<byte>
    /** The two rx packet slots of the emulated link. */
    var rx: seq<seq<byte>>
    /** Return register of the hooked calls. */
    var r0: int
    var lastResult: Option<BattleResult>

    ghost predicate Valid()
      reads this
    {
      |rx| == 2 && localPlayerIndex < 2
    }

    constructor (isOfferer: bool, localPlayerIndex: nat)
      requires localPlayerIndex < 2
      ensures Valid() && inMatch && !inRound && !committed && background.None? && lastResult.None?
      ensures this.isOfferer == isOfferer && this.localPlayerIndex == localPlayerIndex
    {
      inMatch := true;
      this.isOfferer := isOfferer;
      inRound := false;
      committed := false;
      currentTick := 0;
      this.localPlayerIndex := localPlayerIndex;
      rngState := 0;
      background := None;
      rx := [INIT_RX, INIT_RX];
      r0 := 0;
      lastResult := None;
    }

    /** The comm-menu-init hook: two RNG states are drawn (the offerer's,
        then the answerer's) and this side's one is set; the battle starts
        with a drawn background. Nothing happens without a match. */
    method CommMenuInit(firstDraw: nat, secondDraw: nat, backgroundDraw: nat)
      requires firstDraw < 0x1_0000 && secondDraw < 0x1_0000 && backgroundDraw < |BATTLE_BACKGROUNDS|
      modifies this`rngState, this`background
      ensures inMatch ==>
                rngState == PrimaryRngState(isOfferer, firstDraw, secondDraw)
                && background == Some(RandomBackground(backgroundDraw))
      ensures !inMatch ==> rngState == old(rngState) && background == old(background)
    {
      if !inMatch {
        return;
      }
      var offererState := GenerateRngState(firstDraw);
      var answererState := GenerateRngState(secondDraw);
      rngState := if isOfferer then offererState else answererState;
      background := Some(RandomBackground(backgroundDraw));
    }

    /** The send-and-receive hooks in battle: data is ready while there is a
        match. */
    method SendAndReceive()
      modifies this`r0
      ensures r0 == if inMatch then 3 else 0
    {
      if !inMatch {
        r0 := 0;
        return;
      }
      r0 := 3;
    }

    /** The comm-menu send-and-receive hook. */
    method CommMenuSendAndReceive()
      modifies this`r0, this`rx
      ensures r0 == 3 && rx == [INIT_RX, INIT_RX]
    {
      r0 := 3;
      rx := [INIT_RX, INIT_RX];
    }

    /** The link-is-player-2 hook. */
    method LinkIsP2()
      requires Valid()
      modifies this`r0
      ensures r0 == if inMatch && inRound then ReportedPlayerIndex(PrimaryRole, localPlayerIndex) else old(r0)
    {
      if !inMatch || !inRound {
        return;
      }
      r0 := localPlayerIndex;
    }

    /** The joypad-read hook, up to handing the local input to the round:
        while linking, the first read of a round draws a fresh RNG state and
        commits the round's first state. */
    method ReadJoyflags(linking: bool, draw: nat)
      requires draw < 0x1_0000
      modifies this`rngState, this`committed
      ensures inMatch && inRound && linking && !old(committed) ==>
                rngState == RngIter(RNG_INITIAL_STATE, draw) && committed
      ensures !(inMatch && inRound && linking && !old(committed)) ==>
                rngState == old(rngState) && committed == old(committed)
    {
      if !inMatch || !inRound || !linking {
        return;
      }
      if !committed {
        rngState := GenerateRngState(draw);
        committed := true;
      }
    }

    /** A round-result hook: the ROM's verdict is recorded. A damage-judge
        draw asks the round, so it needs one. */
    method SetResult(s: ResultSignal, onDraw: BattleResult)
      requires inMatch && s == DamageJudgeDraw ==> inRound
      modifies this`lastResult
      ensures lastResult == if inMatch then Some(PrimaryResult(s, onDraw)) else old(lastResult)
    {
      if !inMatch {
        return;
      }
      lastResult := Some(PrimaryResult(s, onDraw));
    }

    /** The round jump-table hook: the tick advances once the round's state
        is committed. */
    method IncrementTick()
      modifies this`currentTick
      ensures currentTick == if inMatch && inRound && committed then old(currentTick) + 1 else old(currentTick)
    {
      if !inMatch || !inRound || !committed {
        return;
      }
      currentTick := currentTick + 1;
    }

    /** The round-start hook: in a match, a round begins. */
    method StartRound()
      modifies this`inRound
      ensures inRound == (old(inRound) || inMatch)
    {
      if inMatch {
        inRound := true;
      }
    }

    /** The two round-ending hooks: level-triggered, they end the round only
        while a match has one in progress. */
    method EndRound()
      modifies this`inRound
      ensures inRound == (old(inRound) && !inMatch)
    {
      if inMatch && inRound {
        inRound := false;
      }
    }
  }

  // ---------------------------------------------------------------------
  // The shadow's hooks

  /** What the shadow's send-and-receive hook does with the input pair it
      takes. */
  datatype Injection = Skipped | Failed(error: TickError) | Injected

  /** The shadow's decision: a pair one tick behind is dropped silently (the
      emulator ran past the joypad read once); otherwise the pair and the
      remote packet saved for this tick must all be for the current tick. */
  function ShadowInjection(ip: Pair, currentTick: nat, saved: Packet): (r: Injection)
    ensures r == Skipped <==> ip.local.localTick + 1 == currentTick
    ensures r == Injected <==>
              ip.local.localTick == ip.remote.localTick == currentTick && saved.tick == currentTick
    ensures r.Failed? ==> Some(r.error) == CheckPairAndPacket(ip, currentTick, saved)
  {
    if ip.local.localTick + 1 == currentTick then Skipped
    else
      match CheckPairAndPacket(ip, currentTick, saved)
      case Some(e) => Failed(e)
      case None => Injected
  }

  /** The shadow's round and the parts of its emulator the hooks touch. */
  class Shadow {
    var isOfferer: bool
    /** Whether a round is in progress. */
    var inRound: bool
    var currentTick: nat
    /** Input pairs queued for the shadow. */
    var inputs: seq<Pair>
    /** The remote packet saved for the next tick. */
    var remotePacket: Option<Packet>
    var localPlayerIndex: nat
    var inputInjected: bool
    var firstCommitted: bool
    var rngState: bv32
    var background: Option<byte>
    var rx: seq<seq<byte>>
    var r0: int
    /** The joypad register. */
    var r4: bv16
    var error: Option<TickError>
    var lastResult: Option<BattleResult>
    /** The tick of the last applied state. */
    var appliedTick: Option<nat>

    ghost predicate Valid()
      reads this
    {
      |rx| == 2 && localPlayerIndex < 2
    }

    constructor (isOfferer: bool, localPlayerIndex: nat)
      requires localPlayerIndex < 2
      ensures Valid() && !inRound && inputs == [] && error.None? && appliedTick.None?
      ensures this.isOfferer == isOfferer && this.localPlayerIndex == localPlayerIndex
    {
      this.isOfferer := isOfferer;
      inRound := false;
      currentTick := 0;
      inputs := [];
      remotePacket := None;
      this.localPlayerIndex := localPlayerIndex;
      inputInjected := false;
      firstCommitted := false;
      rngState := 0;
      background := None;
      rx := [INIT_RX, INIT_RX];
      r0 := 0;
      r4 := 0;
      error := None;
      lastResult := None;
      appliedTick := None;
    }

    /** The comm-menu-init hook: the same two draws as the primary's, but the
        shadow takes the other side's state. */
    method CommMenuInit(firstDraw: nat, secondDraw: nat, backgroundDraw: nat)
      requires firstDraw < 0x1_0000 && secondDraw < 0x1_0000 && backgroundDraw < |BATTLE_BACKGROUNDS|
      modifies this`rngState, this`background
      ensures rngState == ShadowRngState(isOfferer, firstDraw, secondDraw)
      ensures background == Some(RandomBackground(backgroundDraw))
    {
      var offererState := GenerateRngState(firstDraw);
      var answererState := GenerateRngState(secondDraw);
      rngState := if isOfferer then answererState else offererState;
      background := Some(RandomBackground(backgroundDraw));
    }

    /** The send-and-receive hook: reports "no data" outside a round;
        otherwise takes the next queued pair, and if it passes the checks
        writes the local input's packet and the saved remote packet into the
        rx slots, saves the outgoing packet `tx` for the next tick and marks
        the input injected. A failed check records the error and injects
        nothing. The source unwraps the saved remote packet. */
    method SendAndReceive(tx: seq<byte>)
      requires Valid()
      requires inRound && inputs != [] && CheckPair(inputs[0], currentTick).None? ==> remotePacket.Some?
      modifies this`r0, this`inputs, this`rx, this`error, this`remotePacket, this`inputInjected
      ensures Valid()
      ensures r0 == if inRound then 3 else 0
      ensures !inRound || old(inputs) == [] ==>
                inputs == old(inputs) && rx == old(rx) && error == old(error)
                && remotePacket == old(remotePacket) && inputInjected == old(inputInjected)
      ensures inRound && old(inputs) != [] ==>
                var ip := old(inputs)[0];
                var saved := if old(remotePacket).Some? then old(remotePacket).value else Packet(currentTick, []);
                var outcome := ShadowInjection(ip, currentTick, saved);
                inputs == old(inputs)[1..]
                && (outcome == Injected ==>
                      rx[localPlayerIndex] == ip.local.packet
                      && rx[1 - localPlayerIndex] == saved.packet
                      && remotePacket == Some(Packet(currentTick + 1, tx))
                      && inputInjected && error == old(error))
                && (outcome != Injected ==>
                      rx == old(rx) && remotePacket == old(remotePacket) && inputInjected == old(inputInjected))
                && (outcome.Failed? ==> error == Some(outcome.error))
                && (outcome == Skipped ==> error == old(error))
    {
      if !inRound {
        r0 := 0;
        return;
      }
      r0 := 3;
      if inputs == [] {
        return;
      }
      var ip := inputs[0];
      inputs := inputs[1..];
      if ip.local.localTick + 1 == currentTick {
        return;
      }
      var check := CheckPair(ip, currentTick);
      if check.Some? {
        error := check;
        return;
      }
      var saved := remotePacket.value;
      if saved.tick != currentTick {
        error := Some(PacketTickMismatch(saved.tick, currentTick));
        return;
      }
      rx := rx[localPlayerIndex := ip.local.packet][1 - localPlayerIndex := saved.packet];
      remotePacket := Some(Packet(currentTick + 1, tx));
      inputInjected := true;
    }

    /** The joypad-read hook. Before the round's first state is committed, a
        read while not linking draws a fresh RNG state, and the first read
        while linking commits. After that the queued pair is only looked at:
        if it passes the tick checks the remote input's buttons are injected,
        and an injected input has its state applied at the current tick. */
    method ReadJoyflags(linking: bool, draw: nat)
      requires draw < 0x1_0000
      modifies this`rngState, this`firstCommitted, this`r4, this`error, this`inputInjected, this`appliedTick
      ensures !inRound ==>
                rngState == old(rngState) && firstCommitted == old(firstCommitted) && r4 == old(r4)
                && error == old(error) && inputInjected == old(inputInjected) && appliedTick == old(appliedTick)
      ensures inRound && !old(firstCommitted) ==>
                (linking ==> rngState == old(rngState) && firstCommitted)
                && (!linking ==> rngState == RngIter(RNG_INITIAL_STATE, draw) && !firstCommitted)
                && r4 == old(r4) && error == old(error)
                && inputInjected == old(inputInjected) && appliedTick == old(appliedTick)
      ensures inRound && old(firstCommitted) ==> rngState == old(rngState) && firstCommitted
      ensures inRound && old(firstCommitted) && inputs != [] && CheckPair(inputs[0], currentTick).Some? ==>
                error == CheckPair(inputs[0], currentTick)
                && r4 == old(r4) && inputInjected == old(inputInjected) && appliedTick == old(appliedTick)
      ensures inRound && old(firstCommitted) && !(inputs != [] && CheckPair(inputs[0], currentTick).Some?) ==>
                error == old(error)
                && r4 == (if inputs != [] then InjectedJoyflags(inputs[0].remote.joyflags) else old(r4))
                && !inputInjected
                && appliedTick == (if old(inputInjected) then Some(currentTick) else old(appliedTick))
    {
      if !inRound {
        return;
      }
      if !linking && !firstCommitted {
        rngState := GenerateRngState(draw);
        return;
      }
      if !firstCommitted {
        firstCommitted := true;
        return;
      }
      if inputs != [] {
        var ip := inputs[0];
        var check := CheckPair(ip, currentTick);
        if check.Some? {
          error := check;
          return;
        }
        r4 := InjectedJoyflags(ip.remote.joyflags);
      }
      if inputInjected {
        inputInjected := false;
        appliedTick := Some(currentTick);
      }
    }

    /** The comm-menu send-and-receive hook. */
    method CommMenuSendAndReceive()
      modifies this`r0, this`rx
      ensures r0 == 3 && rx == [INIT_RX, INIT_RX]
    {
      r0 := 3;
      rx := [INIT_RX, INIT_RX];
    }

    /** The link-is-player-2 hook: the shadow answers with the remote seat. */
    method LinkIsP2()
      requires Valid()
      modifies this`r0
      ensures r0 == if inRound then ReportedPlayerIndex(ShadowRole, localPlayerIndex) else old(r0)
    {
      if !inRound {
        return;
      }
      r0 := 1 - localPlayerIndex;
    }

    /** A round-result hook: the shadow records the opposite of the ROM's
        verdict. A damage-judge draw asks the round, so it needs one. */
    method SetResult(s: ResultSignal, onDraw: BattleResult)
      requires s == DamageJudgeDraw ==> inRound
      modifies this`lastResult
      ensures lastResult == Some(ShadowResult(s, onDraw))
    {
      lastResult := Some(ShadowResult(s, onDraw));
    }

    /** The round-start hook: a round begins. */
    method StartRound()
      modifies this`inRound
      ensures inRound
    {
      inRound := true;
    }

    /** The round-end hook: the round ends and the state applied is marked as
        being at tick 0. */
    method EndRound()
      modifies this`inRound, this`appliedTick
      ensures !inRound && appliedTick == Some(0)
    {
      inRound := false;
      appliedTick := Some(0);
    }

    /** The round jump-table hook: the tick advances once the first state is
        committed. */
    method IncrementTick()
      modifies this`currentTick
      ensures currentTick == if inRound && firstCommitted then old(currentTick) + 1 else old(currentTick)
    {
      if inRound && firstCommitted {
        currentTick := currentTick + 1;
      }
    }
  }

  // ---------------------------------------------------------------------
  // The replayer's hooks

  /** What the replayer's send-and-receive hook does. */
  datatype ReplayStep = RoundEnding | Idle | ReplayFailed(error: TickError) | Replayed

  function ReplayerStep(roundEnding: bool, next: Option<Pair>, currentTick: nat, saved: Packet): (r: ReplayStep)
    ensures r == RoundEnding <==> roundEnding
    ensures r == Idle <==> !roundEnding && next.None?
    ensures r == Replayed <==>
              !roundEnding && next.Some?
              && next.value.local.localTick == next.value.remote.localTick == currentTick
              && saved.tick == currentTick
    ensures r.ReplayFailed? ==> Some(r.error) == CheckPairAndPacket(next.value, currentTick, saved)
  {
    if roundEnding then RoundEnding
    else
      match next
      case None => Idle
      case Some(ip) =>
        match CheckPairAndPacket(ip, currentTick, saved)
        case Some(e) => ReplayFailed(e)
        case None => Replayed
  }

  /** The replayer's state and the parts of its emulator the hooks touch. */
  class Replayer {
    var roundEnding: bool
    var roundEnded: bool
    var currentTick: nat
    var inputs: seq<Pair>
    /** The local packet saved for the next tick. */
    var localPacket: Option<Packet>
    var localPlayerIndex: nat
    /** The ticks at which the committed and the dirty state are saved, and
        whether they have been. */
    var commitTick: nat
    var dirtyTick: nat
    var committedSaved: bool
    var dirtySaved: bool
    var rx: seq<seq<byte>>
    var r0: int
    var r4: bv16
    var error: Option<TickError>
    var roundResult: Option<BattleResult>

    ghost predicate Valid()
      reads this
    {
      |rx| == 2 && localPlayerIndex < 2
    }

    constructor (localPlayerIndex: nat, inputs: seq<Pair>, first: Packet, commitTick: nat, dirtyTick: nat)
      requires localPlayerIndex < 2
      ensures Valid() && !roundEnding && !roundEnded && this.inputs == inputs && localPacket == Some(first)
      ensures this.localPlayerIndex == localPlayerIndex && error.None? && roundResult.None?
      ensures this.commitTick == commitTick && this.dirtyTick == dirtyTick && !committedSaved && !dirtySaved
    {
      roundEnding := false;
      roundEnded := false;
      currentTick := 0;
      this.inputs := inputs;
      localPacket := Some(first);
      this.localPlayerIndex := localPlayerIndex;
      this.commitTick := commitTick;
      this.dirtyTick := dirtyTick;
      committedSaved := false;
      dirtySaved := false;
      rx := [INIT_RX, INIT_RX];
      r0 := 0;
      r4 := 0;
      error := None;
      roundResult := None;
    }

    /** The send-and-receive hook: data is always reported ready. Once the
        round is ending nothing else happens. With no input left both rx
        slots get the idle packet for the link's sequence number `seqnum`.
        Otherwise the next pair is taken; if it and the saved local packet
        are for the current tick, the local packet and `shadowRx` (what the
        shadow produced for the remote input) go into the rx slots and the
        outgoing packet `tx` is saved for the next tick. The source unwraps
        the saved local packet. */
    method SendAndReceive(seqnum: u32, shadowRx: seq<byte>, tx: seq<byte>)
      requires Valid()
      requires !roundEnding && inputs != [] && CheckPair(inputs[0], currentTick).None? ==> localPacket.Some?
      modifies this`r0, this`inputs, this`rx, this`error, this`localPacket
      ensures Valid() && r0 == 3
      ensures var step := ReplayerStep(roundEnding, if old(inputs) == [] then None else Some(old(inputs)[0]),
                                       currentTick, if old(localPacket).Some? then old(localPacket).value else Packet(currentTick, []));
              (step == RoundEnding ==> inputs == old(inputs) && rx == old(rx) && error == old(error) && localPacket == old(localPacket))
              && (step == Idle ==> inputs == old(inputs) && rx == [ReplayerIdleRx(seqnum), ReplayerIdleRx(seqnum)]
                                   && error == old(error) && localPacket == old(localPacket))
              && (step.ReplayFailed? ==> inputs == old(inputs)[1..] && rx == old(rx) && error == Some(step.error)
                                         && localPacket == old(localPacket))
              && (step == Replayed ==> inputs == old(inputs)[1..]
                                       && rx[localPlayerIndex] == old(localPacket).value.packet
                                       && rx[1 - localPlayerIndex] == shadowRx
                                       && localPacket == Some(Packet(currentTick + 1, tx))
                                       && error == old(error))
    {
      r0 := 3;
      if roundEnding {
        return;
      }
      if inputs == [] {
        var idle := ReplayerIdleRx(seqnum);
        rx := [idle, idle];
        return;
      }
      var ip := inputs[0];
      inputs := inputs[1..];
      var check := CheckPair(ip, currentTick);
      if check.Some? {
        error := check;
        return;
      }
      var saved := localPacket.value;
      if saved.tick != currentTick {
        error := Some(PacketTickMismatch(saved.tick, currentTick));
        return;
      }
      rx := rx[localPlayerIndex := saved.packet][1 - localPlayerIndex := shadowRx];
      localPacket := Some(Packet(currentTick + 1, tx));
    }

    /** The joypad-read hook: the committed state is saved at the commit
        tick; the next pair is only looked at, and if it passes the tick
        checks its local input's buttons are injected and the dirty state is
        saved at the dirty tick. */
    method ReadJoyflags()
      modifies this`r4, this`error, this`committedSaved, this`dirtySaved
      ensures committedSaved == (old(committedSaved) || currentTick == commitTick)
      ensures inputs == [] ==> r4 == old(r4) && error == old(error) && dirtySaved == old(dirtySaved)
      ensures inputs != [] && CheckPair(inputs[0], currentTick).Some? ==>
                r4 == old(r4) && error == CheckPair(inputs[0], currentTick) && dirtySaved == old(dirtySaved)
      ensures inputs != [] && CheckPair(inputs[0], currentTick).None? ==>
                r4 == InjectedJoyflags(inputs[0].local.joyflags) && error == old(error)
                && dirtySaved == (old(dirtySaved) || currentTick == dirtyTick)
    {
      if currentTick == commitTick {
        committedSaved := true;
      }
      if inputs == [] {
        return;
      }
      var ip := inputs[0];
      var check := CheckPair(ip, currentTick);
      if check.Some? {
        error := check;
        return;
      }
      r4 := InjectedJoyflags(ip.local.joyflags);
      if currentTick == dirtyTick {
        dirtySaved := true;
      }
    }

    /** The link-is-player-2 hook: the replayer plays the recorded side. */
    method LinkIsP2()
      requires Valid()
      modifies this`r0
      ensures r0 == ReportedPlayerIndex(ReplayerRole, localPlayerIndex)
    {
      r0 := localPlayerIndex;
    }

    /** The round-ending hooks: the first one marks the round ending. */
    method SetRoundEnding()
      modifies this`roundEnding
      ensures roundEnding
    {
      if roundEnding {
        return;
      }
      roundEnding := true;
    }

    /** The round-end hook. */
    method SetRoundEnded()
      modifies this`roundEnded
      ensures roundEnded
    {
      roundEnded := true;
    }

    /** A round-result hook: the replayer records the ROM's verdict. */
    method SetResult(s: ResultSignal)
      modifies this`roundResult
      ensures roundResult == Some(ReplayerResult(s))
    {
      roundResult := Some(ReplayerResult(s));
    }

    /** The round jump-table hook: the replayer's tick always advances. */
    method IncrementTick()
      modifies this`currentTick
      ensures currentTick == old(currentTick) + 1
    {
      currentTick := currentTick + 1;
    }
  }
}
