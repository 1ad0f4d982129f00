/**
 * The decision `otc_response` takes for one message (main.py:63-80, 90): a
 * per-user cooldown table, checked and then overwritten in place, followed by
 * validation of the chosen pair and the choice of a reply template.
 *
 * The event-loop clock reading is the parameter `now` (seconds, as a real);
 * the random template choice is the parameter `pick`. Sending, editing and
 * deleting messages and the sleeps between them are not part of this model.
 */
module Cooldown {
  import opened Bot
  import opened Template

  /** What one message leads to. */
  datatype Outcome =
    | Denied(remaining: int)   // still cooling down; the wait shown to the user
    | Rejected                 // the text is not one of the offered pairs
    | Admitted(text: string)   // the signal sent for the pair

  /** The outcome of one message together with the table it leaves behind. */
  datatype Transition = Transition(outcome: Outcome, table: map<int, real>)

  /** The test of main.py:65: the user has an entry and its expiry is still ahead. */
  predicate OnCooldown(table: map<int, real>, user: int, now: real) {
    user in table && now < table[user]
  }

  /**
   * One message from `user` with text `choice` at time `now`. A user on cooldown
   * is told the whole seconds left and the table is untouched; anyone else gets
   * a new expiry `now + 10` before the choice is validated, so an invalid
   * choice is rejected but still starts a cooldown; a valid one gets template
   * `pick` filled with the pair.
   */
  function Step(table: map<int, real>, user: int, now: real, choice: string, pick: nat): (t: Transition)
    requires pick < |Responses|
    ensures t.outcome.Denied? <==> OnCooldown(table, user, now)
    ensures t.outcome.Denied? ==>
      && t.table == table
      && 0 <= t.outcome.remaining
      && t.outcome.remaining as real <= table[user] - now < t.outcome.remaining as real + 1.0
    ensures !t.outcome.Denied? ==>
      && t.table.Keys == table.Keys + {user}
      && t.table[user] == now + CooldownTime
      && forall u :: u in table && u != user ==> t.table[u] == table[u]
    ensures t.outcome.Rejected? <==> !OnCooldown(table, user, now) && choice !in OtcPairs
    ensures t.outcome.Admitted? ==> choice in OtcPairs && t.outcome.text == Banners[pick] + choice + Bodies[pick]
  {
    if OnCooldown(table, user, now) then
      Transition(Denied((table[user] - now).Floor), table)
    else
      var next := table[user := now + CooldownTime];
      if choice !in OtcPairs then Transition(Rejected, next)
      else Transition(Admitted(Signal(pick, choice)), next)
  }

  /** Every entry was set at or before `now`, so none lies more than one window ahead. */
  ghost predicate SetNoLaterThan(table: map<int, real>, now: real) {
    forall u :: u in table ==> table[u] <= now + CooldownTime
  }

  /**
   * The wait shown on a denial is between 0 and 10 whole seconds when every
   * entry was set no later than `now`; it is 0 exactly when less than a second
   * is left, because the fraction is dropped rather than rounded up.
   */
  lemma RemainingBounds(table: map<int, real>, user: int, now: real, choice: string, pick: nat)
    requires pick < |Responses|
    requires SetNoLaterThan(table, now)
    requires Step(table, user, now, choice, pick).outcome.Denied?
    ensures var w := Step(table, user, now, choice, pick).outcome.remaining;
      0 <= w && w as real <= CooldownTime && (w == 0 <==> table[user] - now < 1.0)
  {
  }

  /** A message never denies a user without an entry, whatever the time and text. */
  lemma AbsentNeverDenied(table: map<int, real>, user: int, now: real, choice: string, pick: nat)
    requires pick < |Responses|
    requires user !in table
    ensures !Step(table, user, now, choice, pick).outcome.Denied?
    ensures Step(table, user, now, choice, pick).table[user] == now + CooldownTime
  {
  }

  /**
   * After a message at `t` that was not denied, a later message from the same
   * user at `t2` is denied exactly when `t2 < t + 10`, with the wait
   * `floor(t + 10 - t2)`; from `t + 10` on it is decided as if the user had no
   * entry at all.
   */
  lemma WindowAfterStep(
    table: map<int, real>, user: int, t: real, choice: string, pick: nat,
    t2: real, choice2: string, pick2: nat)
    requires pick < |Responses| && pick2 < |Responses|
    requires !Step(table, user, t, choice, pick).outcome.Denied?
    requires t <= t2
    ensures var next := Step(table, user, t, choice, pick).table;
      var o := Step(next, user, t2, choice2, pick2).outcome;
      && (o.Denied? <==> t2 < t + CooldownTime)
      && (o.Denied? ==> o.remaining == (t + CooldownTime - t2).Floor && 0 <= o.remaining && o.remaining as real <= CooldownTime)
      && (t + CooldownTime <= t2 ==>
            o == Step(next - {user}, user, t2, choice2, pick2).outcome)
  {
  }

  /**
   * Entries are independent: a message from `user` leaves every other user's
   * entry, and so the outcome of that user's next message, as it was.
   */
  lemma OtherUsersUnaffected(
    table: map<int, real>, user: int, now: real, choice: string, pick: nat,
    other: int, t2: real, choice2: string, pick2: nat)
    requires pick < |Responses| && pick2 < |Responses|
    requires other != user
    ensures var next := Step(table, user, now, choice, pick).table;
      && (other in next <==> other in table)
      && (other in table ==> next[other] == table[other])
      && Step(next, other, t2, choice2, pick2).outcome == Step(table, other, t2, choice2, pick2).outcome
  {
  }

  /** Sequential scenarios, with the outcomes the code gives. */
  lemma Scenarios(pick: nat)
    requires pick < |Responses|
    ensures var s1 := Step(map[], 1, 0.0, "EUR/USD OTC", pick);
      var s2 := Step(s1.table, 1, 5.0, "EUR/USD OTC", pick);
      var s3 := Step(s2.table, 1, 5.5, "EUR/USD OTC", pick);
      var s4 := Step(s3.table, 1, 11.0, "EUR/USD OTC", pick);
      && s1.outcome == Admitted(Signal(pick, "EUR/USD OTC"))
      && s2.outcome == Denied(5)
      && s3.outcome == Denied(4)
      && s4.outcome.Admitted?
    // An invalid choice starts a cooldown: the valid choice right after it is denied.
    ensures var r1 := Step(map[], 2, 0.0, "GARBAGE", pick);
      var r2 := Step(r1.table, 2, 0.0, "EUR/USD OTC", pick);
      && r1.outcome == Rejected
      && r2.outcome == Denied(10)
    // With less than a second left the user is told to wait 0 seconds.
    ensures Step(map[3 := 10.0], 3, 9.5, "EUR/USD OTC", pick).outcome == Denied(0)
  {
  }

  /**
   * The cooldown table, the module-level `user_cooldowns` dictionary
   * (main.py:29), keyed by user id and holding expiry times.
   */
  class CooldownTable {
    var expiry: map<int, real>

    /** The latest clock reading seen; the event-loop clock never goes back. */
    ghost var clock: real

    ghost predicate Valid()
      reads this
    {
      SetNoLaterThan(expiry, clock)
    }

    /** An empty table, created when the clock reads `start`. */
    constructor (ghost start: real)
      ensures Valid() && expiry == map[] && clock == start
    {
      expiry := map[];
      clock := start;
    }

    /**
     * Decides one message from `user` carrying `choice` at time `now`, updating
     * the table in place as `otc_response` does: the check of line 65, the
     * overwrite of line 75 before the validation of line 78, and the template
     * of line 90.
     */
    method Select(user: int, now: real, choice: string, pick: nat) returns (r: Outcome)
      requires Valid() && clock <= now
      requires pick < |Responses|
      modifies this
      ensures Valid() && clock == now
      ensures Transition(r, expiry) == Step(old(expiry), user, now, choice, pick)
      ensures r.Denied? ==> expiry == old(expiry) && 0 <= r.remaining && r.remaining as real <= CooldownTime
      ensures !r.Denied? ==> expiry == old(expiry)[user := now + CooldownTime]
    {
      if OnCooldown(expiry, user, now) {
        r := Denied((expiry[user] - now).Floor);
        RemainingBounds(expiry, user, now, choice, pick);
        clock := now;
        return;
      }
      expiry := expiry[user := now + CooldownTime];
      clock := now;
      if choice !in OtcPairs {
        r := Rejected;
        return;
      }
      r := Admitted(Fill(Responses[pick], choice));
    }
  }
}
