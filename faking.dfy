/**
 * The fake mode of a class that includes Imagery::Faking: a class-level
 * mode that `faked` sets to :fake around a block, and that makes save
 * return at once.
 */
module Faking {
  import opened Outcomes

  const Fake := "fake"

  /**
   * The block given to `faked`: a body that returns or raises, or another
   * `faked` call around an inner block.
   */
  datatype Block = Body(raises: bool) | Nested(inner: Block)

  /** Whether the block ends by raising; `ensure` passes the exception on. */
  function Raises(b: Block): bool {
    match b
    case Body(r) => r
    case Nested(inner) => Raises(inner)
  }

  /** The class-level instance variables @mode and @omode; None stands for nil. */
  datatype Modes = Modes(mode: Option<string>, omode: Option<string>)

  /**
   * ClassMethods#faked as written: the current mode goes into the single
   * @omode slot, the mode becomes :fake, the block runs, and `ensure` puts
   * @omode back into the mode, whether the block returned or raised.
   */
  function FakedAsWritten(s: Modes, b: Block): Modes
    decreases b
  {
    var entered := Modes(Some(Fake), s.mode);
    var left := match b
      case Body(_) => entered
      case Nested(inner) => FakedAsWritten(entered, inner);
    Modes(left.omode, left.omode)
  }

  /** A single `faked` puts the prior mode back, whether its body returns or raises. */
  lemma FakedRestoresOnce(s: Modes, raises: bool)
    ensures FakedAsWritten(s, Body(raises)).mode == s.mode
  {
  }

  /** Run with :fake as the mode, `faked` leaves :fake behind. */
  lemma {:induction false} FakedFromFake(s: Modes, b: Block)
    requires s.mode == Some(Fake)
    ensures FakedAsWritten(s, b) == Modes(Some(Fake), Some(Fake))
    decreases b
  {
    match b
    case Body(_) =>
    case Nested(inner) => FakedFromFake(Modes(Some(Fake), s.mode), inner);
  }

  /**
   * A nested `faked` overwrites the single @omode slot with :fake, so the
   * outer `ensure` restores :fake, and the mode stays :fake after the
   * outermost call whatever it was before.
   */
  lemma NestedFakedStaysFake(s: Modes, inner: Block)
    ensures FakedAsWritten(s, Nested(inner)).mode == Some(Fake)
  {
    FakedFromFake(Modes(Some(Fake), s.mode), inner);
  }

  /** `faked` as evidently intended: the prior mode is kept per call and put back by that call. */
  function FakedKeepingPrior(s: Modes, b: Block): Modes
    decreases b
  {
    var entered := Modes(Some(Fake), s.omode);
    var left := match b
      case Body(_) => entered
      case Nested(inner) => FakedKeepingPrior(entered, inner);
    Modes(s.mode, left.omode)
  }

  /** With the prior mode kept per call, every `faked`, nested or not, restores the mode it found. */
  lemma {:induction false} FakedKeepingPriorRestores(s: Modes, b: Block)
    ensures FakedKeepingPrior(s, b).mode == s.mode
    ensures FakedKeepingPrior(s, b).omode == s.omode
    decreases b
  {
    match b
    case Body(_) =>
    case Nested(inner) => FakedKeepingPriorRestores(Modes(Some(Fake), s.omode), inner);
  }

  /** The class-level fake-mode switch. */
  class ModeSwitch {
    var mode: Option<string>
    /** The source's single @omode slot; Faked keeps the prior mode per call instead, and leaves this as it was. */
    var omode: Option<string>

    constructor()
      ensures mode == None && omode == None
    {
      mode := None;
      omode := None;
    }

    /** ClassMethods#mode. */
    function Mode(): Option<string>
      reads this
    {
      mode
    }

    /** ClassMethods#mode=: the next `mode` returns the value set. */
    method SetMode(m: Option<string>)
      modifies this
      ensures Mode() == m && omode == old(omode)
    {
      mode := m;
    }

    /**
     * ClassMethods#faked around `b`, with the prior mode kept per call (see
     * NestedFakedStaysFake for the single @omode slot of the source).
     * `seen` is the mode the innermost body observes; `raised` tells
     * whether the call ended by raising.
     */
    method Faked(b: Block) returns (raised: bool, seen: Option<string>)
      modifies this
      ensures Modes(mode, omode) == FakedKeepingPrior(old(Modes(mode, omode)), b)
      ensures raised == Raises(b)
      ensures seen == Some(Fake)
      decreases b
    {
      var prior := mode;
      mode := Some(Fake);
      match b {
        case Body(r) =>
          seen := mode;
          raised := r;
        case Nested(inner) =>
          raised, seen := Faked(inner);
      }
      mode := prior;
    }
  }
}
