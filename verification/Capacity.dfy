/** The byte limit of a queue and what it does when the limit is reached: both queues
    share it. */
module Capacity {
  import opened Positions

  datatype Policy = OppositeEnd | HeadEnd | TailEnd | Reject

  const HEADROOM_CAP := 64 * 1024

  /** A tenth, rounded down, counted off so that no proof below meets a division. */
  function Tenth(n: nat): nat { if n < 10 then 0 else 1 + Tenth(n - 10) }

  lemma {:induction false} TenthIsQuotient(n: nat)
    ensures Tenth(n) == n / 10
  {
    if n >= 10 { TenthIsQuotient(n - 10); }
  }

  /** The byte limit, if there is one, and what is done when it is reached. */
  datatype Config = Config(limit: Option<nat>, policy: Policy) {
    predicate Fits(bytes: int) { limit.Some? ==> bytes <= limit.value }

    /** targetBytesAfterWrite: a write leaves some headroom below the limit. */
    function Target(required: int): int
      requires limit.Some?
    {
      var tenth := if Tenth(limit.value) > 1 then Tenth(limit.value) else 1;
      var headroom := if tenth < HEADROOM_CAP then tenth else HEADROOM_CAP;
      if required > limit.value - headroom then required else limit.value - headroom
    }

    /** Whether stored items make room for new ones. */
    predicate Evicts() { limit.Some? && !policy.Reject? }

    /** The bytes that may stay stored when `required` more are to be written. */
    function Room(required: nat): (room: int)
      requires limit.Some?
      ensures room >= 0
    {
      Target(required) - required
    }

    /** A new item of this size is refused. */
    predicate CannotAdd(used: int, bytes: nat) {
      !Fits(if policy.Reject? then used + bytes else bytes)
    }

    /** An item of this size is refused in place of one of size `previous`. */
    predicate CannotPut(used: int, previous: nat, bytes: nat) {
      !Fits(bytes) || (policy.Reject? && bytes > previous && !Fits(used - previous + bytes))
    }

    /** evictionDirectionFor: whether an operation evicts from the head. */
    predicate EvictsHead(atTail: bool) {
      if policy.HeadEnd? then true else if policy.TailEnd? then false else atTail
    }
  }

  /** A write leaves a tenth of the limit free below it, at least one byte and at most 65536,
      unless it needs more itself. */
  lemma TargetExactly(config: Config, required: nat)
    requires config.limit.Some?
    ensures var tenth := config.limit.value / 10;
      var headroom := if tenth < 1 then 1 else if tenth > 65536 then 65536 else tenth;
      && config.Target(required) >= required && config.Target(required) >= config.limit.value - headroom
      && (config.Target(required) == required || config.Target(required) == config.limit.value - headroom)
  {
    TenthIsQuotient(config.limit.value);
  }

  /** Which end makes room for a new item: the other one, unless the policy names an end. */
  lemma EvictsExactly(config: Config, atTail: bool)
    ensures config.policy.OppositeEnd? ==> (config.EvictsHead(atTail) <==> atTail)
    ensures config.policy.HeadEnd? ==> config.EvictsHead(atTail)
    ensures config.policy.TailEnd? ==> !config.EvictsHead(atTail)
    ensures config.Evicts() <==> config.limit.Some? && !config.policy.Reject?
  {
  }

  /** Room for a write is room before it, and with the write it stays within the limit. A
      write either leaves the headroom free or needs the whole queue emptied. */
  lemma RoomFor(config: Config, required: nat)
    requires config.limit.Some? && required <= config.limit.value
    ensures config.Room(required) <= config.Room(0) && config.Room(required) + required <= config.limit.value
    ensures if required <= config.Room(0) then config.Room(required) + required <= config.Room(0)
      else config.Room(required) == 0
  {
  }
}
