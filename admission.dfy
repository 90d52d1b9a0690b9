/** The position-claim check that the Harmony prefix on
    `PlayerPositionManagerController.Event_Client_OnPositionSelectClickPosition`
    runs on the client (SkatersLimit.cs, PlayerPositionManagerControllerPatch).
    The host's managers are replaced by inputs: the two team rosters, the
    local player's steam id as a string, and whether this instance is a
    dedicated server. */
module Admission {
  import opened Numbers
  import opened Config

  datatype Team = Blue | Red | OtherTeam
  datatype Role = Attacker | Goalie | OtherRole

  /** One PlayerPosition of a team's roster. */
  datatype Position = Position(team: Team, role: Role, claimed: bool)

  /** Which of the four chat messages a denial shows, with the cap it
      prints in parentheses. */
  datatype DenyReason = DenyReason(teamBalancing: bool, goalieAvailable: bool, cap: Int32)

  /** `true` (the claim goes ahead) or `false` with its chat message. */
  datatype Verdict = Allow | Deny(reason: DenyReason)

  // ---------------------------------------------------------------------
  // IsRole, IsAttacker, IsGoalie

  predicate IsRole(p: Position, role: Role, hasToBeClaimed: bool) {
    var output := p.role == role;
    if hasToBeClaimed then output && p.claimed else output
  }

  predicate IsAttacker(p: Position, hasToBeClaimed: bool) {
    IsRole(p, Role.Attacker, hasToBeClaimed)
  }

  predicate IsGoalie(p: Position, hasToBeClaimed: bool) {
    IsRole(p, Role.Goalie, hasToBeClaimed)
  }

  // ---------------------------------------------------------------------
  // What the counting loops compute

  /** Number of claimed Attacker positions. */
  function SkaterCount(positions: seq<Position>): (n: nat)
    ensures n <= |positions|
  {
    if positions == [] then 0
    else
      var last := positions[|positions| - 1];
      SkaterCount(positions[..|positions| - 1]) + (if IsAttacker(last, true) then 1 else 0)
  }

  /** Whether some position is a claimed Goalie. */
  function HasGoalie(positions: seq<Position>): (b: bool)
    ensures b <==> exists i :: 0 <= i < |positions| && IsGoalie(positions[i], true)
  {
    if positions == [] then false
    else
      var prefix := positions[..|positions| - 1];
      assert forall i :: 0 <= i < |prefix| ==> prefix[i] == positions[i];
      HasGoalie(prefix) || IsGoalie(positions[|positions| - 1], true)
  }

  /** The indices of the claimed Attacker positions. */
  function SkaterIndices(positions: seq<Position>): set<nat> {
    set i: nat | i < |positions| && IsAttacker(positions[i], true)
  }

  /** The skater count is the number of claimed Attacker positions. */
  lemma {:induction false} SkaterCountIsClaimedAttackers(positions: seq<Position>)
    ensures SkaterCount(positions) == |SkaterIndices(positions)|
  {
    if positions != [] {
      var n := |positions| - 1;
      var prefix := positions[..n];
      SkaterCountIsClaimedAttackers(prefix);
      assert SkaterIndices(positions)
          == SkaterIndices(prefix) + (if IsAttacker(positions[n], true) then {n} else {});
    }
  }

  // ---------------------------------------------------------------------
  // The decision as a function

  /** `TeamBalancing(hasBlueGoalie, hasRedGoalie)`. */
  function TeamBalancing(config: ServerConfig, hasBlueGoalie: bool, hasRedGoalie: bool): bool {
    if config.teamBalancing then true
    else if !config.teamBalancingGoalie then false
    else if hasBlueGoalie && hasRedGoalie then false
    else if hasBlueGoalie || hasRedGoalie then true
    else false
  }

  /** Balance mode is on when TeamBalancing is set, or when
      TeamBalancingGoalie is set and exactly one team has a goalie. */
  lemma TeamBalancingIsXor(config: ServerConfig, hasBlueGoalie: bool, hasRedGoalie: bool)
    ensures TeamBalancing(config, hasBlueGoalie, hasRedGoalie)
        == (config.teamBalancing || (config.teamBalancingGoalie && hasBlueGoalie != hasRedGoalie))
    ensures hasBlueGoalie == hasRedGoalie ==> TeamBalancing(config, hasBlueGoalie, hasRedGoalie) == config.teamBalancing
  {
  }

  /** The cap a team is held to. With balance mode on, the opponent's
      count plus the offset plus one replaces MaxNumberOfSkaters when it is
      smaller; the sum is a C# `int` addition, so it wraps around. */
  function EffectiveCap(maxNumberOfSkaters: Int32, teamBalanceOffset: Int32, teamBalancing: bool, opponentSkaters: nat)
    : (cap: Int32)
    ensures cap <= maxNumberOfSkaters
    ensures !teamBalancing ==> cap == maxNumberOfSkaters
    ensures teamBalancing && opponentSkaters + teamBalanceOffset + 1 <= Int32Max ==>
              cap == if opponentSkaters + teamBalanceOffset + 1 < maxNumberOfSkaters
                     then opponentSkaters + teamBalanceOffset + 1 else maxNumberOfSkaters
  {
    if teamBalancing then
      var newMaxNumberOfSkaters := Wrap32(opponentSkaters + teamBalanceOffset + 1);
      if newMaxNumberOfSkaters < maxNumberOfSkaters then newMaxNumberOfSkaters else maxNumberOfSkaters
    else maxNumberOfSkaters
  }

  /** The verdict for a claim on a known team, from the positions of the
      claimant's team and of the opponent. */
  function TeamVerdict(config: ServerConfig, teamBalancing: bool, own: seq<Position>, opponent: seq<Position>): Verdict {
    var cap := EffectiveCap(config.maxNumberOfSkaters, config.teamBalanceOffset, teamBalancing, SkaterCount(opponent));
    if SkaterCount(own) >= cap then Deny(DenyReason(teamBalancing, !HasGoalie(own), cap)) else Allow
  }

  /** The decision Prefix takes, as a function of its inputs. */
  function Decide(config: ServerConfig, isDedicatedServer: bool, localSteamId: string,
                  requested: Position, bluePositions: seq<Position>, redPositions: seq<Position>): Verdict
  {
    if isDedicatedServer || !config.sentByServer then Allow
    else if IsGoalie(requested, false) then Allow
    else if config.adminBypass && localSteamId in config.adminSteamIds then Allow
    else
      var teamBalancing := TeamBalancing(config, HasGoalie(bluePositions), HasGoalie(redPositions));
      match requested.team
      case Blue => TeamVerdict(config, teamBalancing, bluePositions, redPositions)
      case Red => TeamVerdict(config, teamBalancing, redPositions, bluePositions)
      case OtherTeam => Allow
  }

  // ---------------------------------------------------------------------
  // The decision as the source computes it

  /** `IsAdmin()`: whether the local steam id is one of the admin ids. */
  method IsAdmin(adminSteamIds: seq<string>, localSteamId: string) returns (isAdmin: bool)
    ensures isAdmin <==> localSteamId in adminSteamIds
  {
    for i := 0 to |adminSteamIds|
      invariant forall j :: 0 <= j < i ==> adminSteamIds[j] != localSteamId
    {
      if adminSteamIds[i] == localSteamId {
        return true;
      }
    }
    return false;
  }

  /** One of the two `foreach` loops over a team's positions. */
  method CountTeam(positions: seq<Position>) returns (numberOfSkaters: nat, hasGoalie: bool)
    ensures numberOfSkaters == SkaterCount(positions) && hasGoalie == HasGoalie(positions)
  {
    numberOfSkaters, hasGoalie := 0, false;
    for i := 0 to |positions|
      invariant numberOfSkaters == SkaterCount(positions[..i])
      invariant hasGoalie == HasGoalie(positions[..i])
    {
      assert positions[..i + 1][..i] == positions[..i];
      if IsAttacker(positions[i], true) {
        numberOfSkaters := numberOfSkaters + 1;
      } else if IsGoalie(positions[i], true) {
        hasGoalie := true;
      }
    }
    assert positions[..|positions|] == positions;
  }

  /** `Prefix(message)`: Allow lets the claim go ahead, Deny blocks it and
      names the chat message shown. */
  method Prefix(config: ServerConfig, isDedicatedServer: bool, localSteamId: string,
                requested: Position, bluePositions: seq<Position>, redPositions: seq<Position>)
    returns (verdict: Verdict)
    ensures verdict == Decide(config, isDedicatedServer, localSteamId, requested, bluePositions, redPositions)
  {
    if isDedicatedServer || !config.sentByServer {
      return Allow;
    }
    if IsGoalie(requested, false) {
      return Allow;
    }
    if config.adminBypass {
      var isAdmin := IsAdmin(config.adminSteamIds, localSteamId);
      if isAdmin {
        return Allow;
      }
    }
    var numberOfBlueSkaters, hasBlueGoalie := CountTeam(bluePositions);
    var numberOfRedSkaters, hasRedGoalie := CountTeam(redPositions);
    var maxNumberOfSkaters: Int32 := config.maxNumberOfSkaters;
    var teamBalancing := TeamBalancing(config, hasBlueGoalie, hasRedGoalie);
    var numberOfSkaters: nat;
    var goalieAvailable := true;
    match requested.team {
      case Blue =>
        numberOfSkaters := numberOfBlueSkaters;
        if teamBalancing {
          var newMaxNumberOfSkaters := Wrap32(numberOfRedSkaters + config.teamBalanceOffset + 1);
          if newMaxNumberOfSkaters < maxNumberOfSkaters {
            maxNumberOfSkaters := newMaxNumberOfSkaters;
          }
        }
        if hasBlueGoalie {
          goalieAvailable := false;
        }
      case Red =>
        numberOfSkaters := numberOfRedSkaters;
        if teamBalancing {
          var newMaxNumberOfSkaters := Wrap32(numberOfBlueSkaters + config.teamBalanceOffset + 1);
          if newMaxNumberOfSkaters < maxNumberOfSkaters {
            maxNumberOfSkaters := newMaxNumberOfSkaters;
          }
        }
        if hasRedGoalie {
          goalieAvailable := false;
        }
      case OtherTeam =>
        return Allow;
    }
    if numberOfSkaters >= maxNumberOfSkaters {
      return Deny(DenyReason(teamBalancing, goalieAvailable, maxNumberOfSkaters));
    }
    return Allow;
  }

  // ---------------------------------------------------------------------
  // Properties of the decision

  /** On a dedicated server, or before the server's config has arrived,
      every claim is allowed and the rosters make no difference. */
  lemma FailOpen(config: ServerConfig, isDedicatedServer: bool, localSteamId: string, requested: Position,
                 blue1: seq<Position>, red1: seq<Position>, blue2: seq<Position>, red2: seq<Position>)
    requires isDedicatedServer || !config.sentByServer
    ensures Decide(config, isDedicatedServer, localSteamId, requested, blue1, red1) == Allow
    ensures Decide(config, isDedicatedServer, localSteamId, requested, blue1, red1)
         == Decide(config, isDedicatedServer, localSteamId, requested, blue2, red2)
  {
  }

  /** A Goalie position is always allowed, claimed or not. */
  lemma GoalieAlwaysAllowed(config: ServerConfig, isDedicatedServer: bool, localSteamId: string,
                            requested: Position, bluePositions: seq<Position>, redPositions: seq<Position>)
    requires requested.role == Goalie
    ensures Decide(config, isDedicatedServer, localSteamId, requested, bluePositions, redPositions) == Allow
  {
  }

  /** An admin is always allowed while AdminBypass is set. */
  lemma AdminAlwaysAllowed(config: ServerConfig, isDedicatedServer: bool, localSteamId: string,
                           requested: Position, bluePositions: seq<Position>, redPositions: seq<Position>)
    requires config.adminBypass && exists i :: 0 <= i < |config.adminSteamIds| && config.adminSteamIds[i] == localSteamId
    ensures Decide(config, isDedicatedServer, localSteamId, requested, bluePositions, redPositions) == Allow
  {
  }

  /** A position on neither team is allowed. */
  lemma UnknownTeamAllowed(config: ServerConfig, isDedicatedServer: bool, localSteamId: string,
                           requested: Position, bluePositions: seq<Position>, redPositions: seq<Position>)
    requires requested.team == OtherTeam
    ensures Decide(config, isDedicatedServer, localSteamId, requested, bluePositions, redPositions) == Allow
  {
  }

  /** Once no bypass applies, a claim on Blue or Red is denied exactly when
      the team already has as many skaters as its cap; the denial carries
      the balance mode, whether the team's goal is still free, and the cap. */
  lemma DeniedIffTeamAtCap(config: ServerConfig, localSteamId: string,
                           requested: Position, bluePositions: seq<Position>, redPositions: seq<Position>)
    requires config.sentByServer && requested.role != Goalie
    requires !(config.adminBypass && localSteamId in config.adminSteamIds)
    requires requested.team != OtherTeam
    ensures var own := if requested.team == Blue then bluePositions else redPositions;
            var opponent := if requested.team == Blue then redPositions else bluePositions;
            var balancing := config.teamBalancing
                             || (config.teamBalancingGoalie && HasGoalie(bluePositions) != HasGoalie(redPositions));
            var cap := EffectiveCap(config.maxNumberOfSkaters, config.teamBalanceOffset, balancing, SkaterCount(opponent));
            var verdict := Decide(config, false, localSteamId, requested, bluePositions, redPositions);
            (verdict.Deny? <==> SkaterCount(own) >= cap)
            && (verdict.Deny? ==> verdict.reason == DenyReason(balancing, !HasGoalie(own), cap))
  {
    TeamBalancingIsXor(config, HasGoalie(bluePositions), HasGoalie(redPositions));
  }

  /** The cap a denial prints never exceeds MaxNumberOfSkaters, and the
      team it names is at or over that cap. */
  lemma DenialCapAtMostMax(config: ServerConfig, isDedicatedServer: bool, localSteamId: string,
                           requested: Position, bluePositions: seq<Position>, redPositions: seq<Position>)
    requires Decide(config, isDedicatedServer, localSteamId, requested, bluePositions, redPositions).Deny?
    ensures var r := Decide(config, isDedicatedServer, localSteamId, requested, bluePositions, redPositions).reason;
            r.cap <= config.maxNumberOfSkaters
            && SkaterCount(if requested.team == Blue then bluePositions else redPositions) >= r.cap
  {
  }

  /** With neither balancing option set, the cap is MaxNumberOfSkaters
      whatever the rosters. */
  lemma NoBalancingFlatCap(config: ServerConfig, hasBlueGoalie: bool, hasRedGoalie: bool, opponentSkaters: nat)
    requires !config.teamBalancing && !config.teamBalancingGoalie
    ensures EffectiveCap(config.maxNumberOfSkaters, config.teamBalanceOffset,
                         TeamBalancing(config, hasBlueGoalie, hasRedGoalie), opponentSkaters)
         == config.maxNumberOfSkaters
  {
  }

  /** The offset is added in 32-bit arithmetic: an offset of int.MaxValue
      wraps the balanced cap to int.MinValue, so even a team with no skater
      is refused. */
  lemma OffsetOverflowRefusesEmptyTeam()
    ensures var config := Defaults().(sentByServer := true, teamBalancing := true, teamBalanceOffset := Int32Max);
            Decide(config, false, "", Position(Blue, Attacker, false), [], [])
            == Deny(DenyReason(true, true, Int32Min))
  {
  }

  // ---------------------------------------------------------------------
  // Worked examples

  /** `n` claimed Attacker positions on one team. */
  function Skaters(team: Team, n: nat): (ps: seq<Position>)
    ensures |ps| == n && SkaterCount(ps) == n && !HasGoalie(ps)
  {
    if n == 0 then [] else Skaters(team, n - 1) + [Position(team, Attacker, true)]
  }

  /** A server config that has arrived, with the defaults otherwise. */
  function Delivered(): (c: ServerConfig)
    ensures c.sentByServer && c.maxNumberOfSkaters == 5 && c.adminSteamIds == []
  {
    Defaults().(sentByServer := true)
  }

  /** A full Blue team of five refuses a sixth skater, without balancing. */
  lemma FullTeamRefusesSkater(localSteamId: string)
    ensures Decide(Delivered(), false, localSteamId, Position(Blue, Attacker, false), Skaters(Blue, 5), Skaters(Red, 3))
         == Deny(DenyReason(false, true, 5))
  {
  }

  /** The same full team still lets a goalie in. */
  lemma FullTeamAdmitsGoalie(localSteamId: string)
    ensures Decide(Delivered(), false, localSteamId, Position(Blue, Goalie, false), Skaters(Blue, 5), Skaters(Red, 3))
         == Allow
  {
  }

  /** With balancing on, three Blue skaters against one Red give a cap of
      1 + 0 + 1 = 2, so Blue is refused. */
  lemma BalancingRefusesLeadingTeam(localSteamId: string)
    ensures Decide(Delivered().(teamBalancing := true), false, localSteamId, Position(Blue, Attacker, false),
                   Skaters(Blue, 3), Skaters(Red, 1))
         == Deny(DenyReason(true, true, 2))
  {
  }

  /** Goalie balancing with a goalie on Blue only: the cap is
      min(5, 4 + 0 + 1) = 5, and Blue's two skaters are well under it. */
  lemma GoalieBalancingAdmitsTrailingTeam(localSteamId: string)
    ensures var blue := Skaters(Blue, 2) + [Position(Blue, Goalie, true)];
            Decide(Delivered().(teamBalancingGoalie := true), false, localSteamId, Position(Blue, Attacker, false),
                   blue, Skaters(Red, 4)) == Allow
  {
    var blue := Skaters(Blue, 2) + [Position(Blue, Goalie, true)];
    assert blue[..2] == Skaters(Blue, 2);
    assert HasGoalie(blue);
  }
}
