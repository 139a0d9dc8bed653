/** `Decision`, defined identically in `logic/user.rs` and `logic/agent.rs`: what a participant does on its turn. */
module Decisions {

  datatype Decision = TakeItem(from: nat) | Peep(from: nat) | None

  /**
    `Decision::rand_choose(rng, from)`. The draw is `rng.gen_range(0..2)`, so it is 0 or 1: the
    arm for 2 (`None`) and the panicking catch-all are written out but can never be taken.
   */
  function RandChoose(draw: nat, from: nat): (d: Decision)
    requires draw < 2
    ensures d.TakeItem? || d.Peep?
    ensures d.from == from
    ensures d.TakeItem? <==> draw == 0
  {
    if draw == 0 then TakeItem(from)
    else if draw == 1 then Peep(from)
    else if draw == 2 then None
    else assert false; None
  }
}
