/** The per-user reply cooldown: `user_cooldowns` maps a user id to the
    time of that user's last answered message, and a user is answered again
    only once `COOLDOWN_SECONDS` have passed. The current time is a
    parameter (the program reads the wall clock, in seconds). */
module Cooldown {

  const CooldownSeconds: real := 10.0

  type UserId = string
  type Table = map<UserId, real>

  /** `user_cooldowns.get(user_id, 0)` */
  function LastTime(table: Table, user: UserId): (t: real)
    ensures user in table ==> t == table[user]
    ensures user !in table ==> t == 0.0
  {
    if user in table then table[user] else 0.0
  }

  datatype Admission = Admission(allowed: bool, table: Table)

  /** One call of `can_reply` on a given table at time `now`. */
  function Admit(table: Table, user: UserId, now: real): (r: Admission)
    ensures r.allowed <==> now - LastTime(table, user) >= CooldownSeconds
    ensures r.allowed ==> user in r.table && r.table[user] == now
    ensures !r.allowed ==> r.table == table
    ensures r.table.Keys == table.Keys + (if r.allowed then {user} else {})
    ensures forall v :: v in table && v != user ==> r.table[v] == table[v]
  {
    if now - LastTime(table, user) >= CooldownSeconds then Admission(true, table[user := now])
    else Admission(false, table)
  }

  /** After an answered message at time t, the same user is not answered
      at any time t' with t' - t below the cooldown. */
  lemma BlockedWithinCooldown(table: Table, user: UserId, t: real, t': real)
    requires Admit(table, user, t).allowed
    requires t' - t < CooldownSeconds
    ensures !Admit(Admit(table, user, t).table, user, t').allowed
  {
  }

  /** The process-wide cooldown table and its one operation. */
  class Cooldowns {
    var lastReply: Table

    constructor ()
      ensures lastReply == map[]
    {
      lastReply := map[];
    }

    /** `can_reply(user_id)`, with the clock reading passed in as `now`. */
    method CanReply(user: UserId, now: real) returns (allowed: bool)
      modifies this
      ensures allowed <==> now - LastTime(old(lastReply), user) >= CooldownSeconds
      ensures lastReply == if allowed then old(lastReply)[user := now] else old(lastReply)
      ensures Admit(old(lastReply), user, now) == Admission(allowed, lastReply)
    {
      var lastTime := LastTime(lastReply, user);
      if now - lastTime >= CooldownSeconds {
        lastReply := lastReply[user := now];
        return true;
      }
      return false;
    }
  }

  datatype Request = Request(user: UserId, at: real)

  datatype Replayed = Replayed(answered: seq<bool>, table: Table)

  /** A sequence of `can_reply` calls run one after the other on `table`:
      which of them were answered, and the table afterwards. */
  function Replay(table: Table, requests: seq<Request>): (r: Replayed)
    ensures |r.answered| == |requests|
    decreases |requests|
  {
    if requests == [] then Replayed([], table)
    else
      var before := Replay(table, requests[..|requests| - 1]);
      var last := requests[|requests| - 1];
      var step := Admit(before.table, last.user, last.at);
      Replayed(before.answered + [step.allowed], step.table)
  }

  /** After a replay, the table holds for each user a time no earlier than
      any of that user's answered requests. */
  lemma {:induction false} AnsweredBelowTable(table: Table, requests: seq<Request>, i: nat)
    requires i < |requests| && Replay(table, requests).answered[i]
    ensures requests[i].user in Replay(table, requests).table
    ensures Replay(table, requests).table[requests[i].user] >= requests[i].at
    decreases |requests|
  {
    var n := |requests| - 1;
    var prefix := requests[..n];
    var before := Replay(table, prefix);
    if i < n {
      assert before.answered[i];
      assert prefix[i] == requests[i];
      AnsweredBelowTable(table, prefix, i);
    }
  }

  /** Any two answered messages of one user are at least the cooldown
      apart, whatever order the clock readings come in. */
  lemma {:induction false} AnsweredAreSpaced(table: Table, requests: seq<Request>, i: nat, j: nat)
    requires i < j < |requests|
    requires requests[i].user == requests[j].user
    requires Replay(table, requests).answered[i] && Replay(table, requests).answered[j]
    ensures requests[j].at - requests[i].at >= CooldownSeconds
    decreases |requests|
  {
    var n := |requests| - 1;
    var prefix := requests[..n];
    var before := Replay(table, prefix);
    assert prefix[i] == requests[i];
    assert before.answered[i];
    if j == n {
      AnsweredBelowTable(table, prefix, i);
    } else {
      assert prefix[j] == requests[j];
      AnsweredAreSpaced(table, prefix, i, j);
    }
  }

  /** A user who made none of the requests keeps the entry (or the absence
      of one) that the table had before: one user's messages never change
      another user's cooldown. */
  lemma {:induction false} OthersUntouched(table: Table, requests: seq<Request>, v: UserId)
    requires forall k :: 0 <= k < |requests| ==> requests[k].user != v
    ensures v in Replay(table, requests).table <==> v in table
    ensures v in table ==> Replay(table, requests).table[v] == table[v]
    decreases |requests|
  {
    if requests != [] {
      var n := |requests| - 1;
      assert forall k :: 0 <= k < n ==> requests[..n][k] == requests[k];
      OthersUntouched(table, requests[..n], v);
    }
  }
}
