/** The marks that tell a limited user's connections (inbound_netfilter.py), and what zapret
    adds to them. */
module Marks {

  const MARK_BASE: bv32 := 0x0400_0000
  const MARK_MASK: bv32 := 0xFFFF_0000
  const CT_MARK_MASK: bv32 := 0x0FFF_0000
  const CT_MARK_KEY: bv32 := 0x0FFF_FFFF
  const MAX_SLOTS: bv32 := 0xFFFF
  /** Where zapret's marks begin. */
  const ZAPRET: bv32 := 0xF000_0000

  /** The mark of a user's sockets. */
  function LevelMark(slot: bv32): bv32 { MARK_BASE + slot }

  /** Taken over to the connection at output. */
  predicate Taken(mark: bv32) { mark & MARK_MASK == MARK_BASE }

  /** Policed as a limited user's. */
  predicate Policed(ct: bv32) { ct & CT_MARK_MASK == MARK_BASE }

  /** What the maps are asked for. */
  function Key(ct: bv32): bv32 { ct & CT_MARK_KEY }

  /** A slot's mark is taken over just when the slot is no more than the most there are. */
  lemma TakenExactly(slot: bv32)
    ensures Taken(0x0400_0000 + slot) <==> slot <= 0xFFFF
  {}

  /** Whatever zapret adds, the connection is still policed, as the same user. */
  lemma SurvivesZapret(slot: bv32, zapret: bv32)
    requires slot <= MAX_SLOTS && zapret & ZAPRET == zapret
    ensures Policed(LevelMark(slot) | zapret) && Key(LevelMark(slot) | zapret) == 0x0400_0000 + slot
  {}

  /** Another user's connection never has the same key. */
  lemma KeysApart(slot: bv32, other: bv32, zapret: bv32, more: bv32)
    requires slot <= MAX_SLOTS && other <= MAX_SLOTS && zapret & ZAPRET == zapret && more & ZAPRET == more
    requires Key(LevelMark(slot) | zapret) == Key(LevelMark(other) | more)
    ensures slot == other
  {}

  /** A connection that only zapret marked is nobody's. */
  lemma ZapretAlone(zapret: bv32)
    requires zapret & ZAPRET == zapret
    ensures !Policed(zapret)
  {}
}
