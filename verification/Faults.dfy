/** The fault word of the POWER frame. */
module Faults {
  import opened Words
  import opened Config

  /** The bits the controller raises by itself. */
  const OWN_FAULTS: bv16 := 0x03C1

  predicate HasFault(word: bv16, bits: bv16) {
    word & bits != 0
  }

  function Raise(word: bv16, bit: bv16, on: bool): bv16 {
    if on then word | bit else word
  }

  /** What a fault word must say: the reported faults, and the controller's own five exactly when they hold. */
  ghost predicate Explains(w: bv16, base: bv16, timedOut: bool, protocol: bool, crc: bool, gap: bool, c2: bool) {
    && (HasFault(w, FAULT_COMM_TIMEOUT) == (HasFault(base, FAULT_COMM_TIMEOUT) || timedOut))
    && (HasFault(w, FAULT_PROTOCOL_ERROR) == (HasFault(base, FAULT_PROTOCOL_ERROR) || protocol))
    && (HasFault(w, FAULT_CRC_ERROR) == (HasFault(base, FAULT_CRC_ERROR) || crc))
    && (HasFault(w, FAULT_SEQ_GAP) == (HasFault(base, FAULT_SEQ_GAP) || gap))
    && (HasFault(w, FAULT_C2_LINK_LOST) == (HasFault(base, FAULT_C2_LINK_LOST) || c2))
    && forall k | k & OWN_FAULTS == 0 :: HasFault(w, k) == HasFault(base, k)
  }

  function Compose(base: bv16, timedOut: bool, protocol: bool, crc: bool, gap: bool, c2: bool): bv16 {
    var w := Raise(base, FAULT_COMM_TIMEOUT, timedOut);
    var w := Raise(w, FAULT_PROTOCOL_ERROR, protocol);
    var w := Raise(w, FAULT_CRC_ERROR, crc);
    var w := Raise(w, FAULT_SEQ_GAP, gap);
    Raise(w, FAULT_C2_LINK_LOST, c2)
  }

  lemma ComposeExplains(base: bv16, timedOut: bool, protocol: bool, crc: bool, gap: bool, c2: bool)
    ensures Explains(Compose(base, timedOut, protocol, crc, gap, c2), base, timedOut, protocol, crc, gap, c2)
  {
    hide HasFault, Raise;
    OwnBits();
    forall k
      ensures var w := Compose(base, timedOut, protocol, crc, gap, c2);
              HasFault(w, k) ==
                (HasFault(base, k) || (timedOut && HasFault(FAULT_COMM_TIMEOUT, k))
                || (protocol && HasFault(FAULT_PROTOCOL_ERROR, k)) || (crc && HasFault(FAULT_CRC_ERROR, k))
                || (gap && HasFault(FAULT_SEQ_GAP, k)) || (c2 && HasFault(FAULT_C2_LINK_LOST, k)))
    {
      ComposeBits(base, timedOut, protocol, crc, gap, c2, k);
    }
    forall k: bv16 | k & OWN_FAULTS == 0
      ensures !HasFault(FAULT_COMM_TIMEOUT, k) && !HasFault(FAULT_PROTOCOL_ERROR, k) && !HasFault(FAULT_CRC_ERROR, k)
      ensures !HasFault(FAULT_SEQ_GAP, k) && !HasFault(FAULT_C2_LINK_LOST, k)
    {
      OtherBits(k);
    }
  }

  lemma ComposeBits(base: bv16, timedOut: bool, protocol: bool, crc: bool, gap: bool, c2: bool, k: bv16)
    ensures HasFault(Compose(base, timedOut, protocol, crc, gap, c2), k) ==
              (HasFault(base, k) || (timedOut && HasFault(FAULT_COMM_TIMEOUT, k))
              || (protocol && HasFault(FAULT_PROTOCOL_ERROR, k)) || (crc && HasFault(FAULT_CRC_ERROR, k))
              || (gap && HasFault(FAULT_SEQ_GAP, k)) || (c2 && HasFault(FAULT_C2_LINK_LOST, k)))
  {
    hide HasFault, Raise;
    var w := base;
    RaiseBits(w, FAULT_COMM_TIMEOUT, timedOut, k);
    w := Raise(w, FAULT_COMM_TIMEOUT, timedOut);
    RaiseBits(w, FAULT_PROTOCOL_ERROR, protocol, k);
    w := Raise(w, FAULT_PROTOCOL_ERROR, protocol);
    RaiseBits(w, FAULT_CRC_ERROR, crc, k);
    w := Raise(w, FAULT_CRC_ERROR, crc);
    RaiseBits(w, FAULT_SEQ_GAP, gap, k);
    w := Raise(w, FAULT_SEQ_GAP, gap);
    RaiseBits(w, FAULT_C2_LINK_LOST, c2, k);
  }

  lemma RaiseBits(word: bv16, bit: bv16, on: bool, k: bv16)
    ensures HasFault(Raise(word, bit, on), k) == (HasFault(word, k) || (on && HasFault(bit, k)))
  {
    assert (word | bit) & k == (word & k) | (bit & k);
  }

  lemma OwnBits()
    ensures HasFault(FAULT_COMM_TIMEOUT, FAULT_COMM_TIMEOUT) && HasFault(FAULT_PROTOCOL_ERROR, FAULT_PROTOCOL_ERROR)
    ensures HasFault(FAULT_CRC_ERROR, FAULT_CRC_ERROR) && HasFault(FAULT_SEQ_GAP, FAULT_SEQ_GAP)
    ensures HasFault(FAULT_C2_LINK_LOST, FAULT_C2_LINK_LOST)
    ensures !HasFault(FAULT_PROTOCOL_ERROR, FAULT_COMM_TIMEOUT) && !HasFault(FAULT_CRC_ERROR, FAULT_COMM_TIMEOUT)
    ensures !HasFault(FAULT_SEQ_GAP, FAULT_COMM_TIMEOUT) && !HasFault(FAULT_C2_LINK_LOST, FAULT_COMM_TIMEOUT)
    ensures !HasFault(FAULT_COMM_TIMEOUT, FAULT_PROTOCOL_ERROR) && !HasFault(FAULT_CRC_ERROR, FAULT_PROTOCOL_ERROR)
    ensures !HasFault(FAULT_SEQ_GAP, FAULT_PROTOCOL_ERROR) && !HasFault(FAULT_C2_LINK_LOST, FAULT_PROTOCOL_ERROR)
    ensures !HasFault(FAULT_COMM_TIMEOUT, FAULT_CRC_ERROR) && !HasFault(FAULT_PROTOCOL_ERROR, FAULT_CRC_ERROR)
    ensures !HasFault(FAULT_SEQ_GAP, FAULT_CRC_ERROR) && !HasFault(FAULT_C2_LINK_LOST, FAULT_CRC_ERROR)
    ensures !HasFault(FAULT_COMM_TIMEOUT, FAULT_SEQ_GAP) && !HasFault(FAULT_PROTOCOL_ERROR, FAULT_SEQ_GAP)
    ensures !HasFault(FAULT_CRC_ERROR, FAULT_SEQ_GAP) && !HasFault(FAULT_C2_LINK_LOST, FAULT_SEQ_GAP)
    ensures !HasFault(FAULT_COMM_TIMEOUT, FAULT_C2_LINK_LOST) && !HasFault(FAULT_PROTOCOL_ERROR, FAULT_C2_LINK_LOST)
    ensures !HasFault(FAULT_CRC_ERROR, FAULT_C2_LINK_LOST) && !HasFault(FAULT_SEQ_GAP, FAULT_C2_LINK_LOST)
  {}

  lemma OtherBits(k: bv16)
    requires k & OWN_FAULTS == 0
    ensures !HasFault(FAULT_COMM_TIMEOUT, k) && !HasFault(FAULT_PROTOCOL_ERROR, k) && !HasFault(FAULT_CRC_ERROR, k)
    ensures !HasFault(FAULT_SEQ_GAP, k) && !HasFault(FAULT_C2_LINK_LOST, k)
  {
    assert FAULT_COMM_TIMEOUT & k == (k & OWN_FAULTS) & FAULT_COMM_TIMEOUT;
    assert FAULT_PROTOCOL_ERROR & k == (k & OWN_FAULTS) & FAULT_PROTOCOL_ERROR;
    assert FAULT_CRC_ERROR & k == (k & OWN_FAULTS) & FAULT_CRC_ERROR;
    assert FAULT_SEQ_GAP & k == (k & OWN_FAULTS) & FAULT_SEQ_GAP;
    assert FAULT_C2_LINK_LOST & k == (k & OWN_FAULTS) & FAULT_C2_LINK_LOST;
  }

  function Value(w: bv16): u16 {
    w as int
  }

  function Word(n: u16): bv16 {
    n as bv16
  }

  lemma WordValue(w: bv16)
    ensures Word(Value(w)) == w
  {}
}
