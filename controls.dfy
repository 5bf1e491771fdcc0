/**
 * The control identifiers and button values of client.py (the `Ps4Controls`
 * and `ButtonState` integer enumerations).  An identifier travels as the first
 * byte of an update entry, a button value as an ordinary four-byte value.
 */
module Controls {
  import opened Wrappers
  import opened ValueCodec

  /** The controls of the emulated pad: eight axes, then twenty buttons and touch flags. */
  datatype Ps4Control =
    | LeftStickX | LeftStickY | RightStickX | RightStickY
    | Finger1X | Finger1Y | Finger2X | Finger2Y
    | Share | Options | PS | Up | Right | Down | Left
    | Triangle | Circle | Cross | Square
    | L1 | R1 | L2 | R2 | L3 | R3
    | Touchpad | Finger1 | Finger2
  {
    /** The integer the enumeration gives this control: an axis lies in 0..7, a button or flag in 128..147. */
    function Code(): (c: int)
      ensures IsByte(c)
      ensures IsAxis() <==> 0 <= c <= 7
      ensures !IsAxis() <==> 128 <= c <= 147
    {
      match this
      case LeftStickX => 0
      case LeftStickY => 1
      case RightStickX => 2
      case RightStickY => 3
      case Finger1X => 4
      case Finger1Y => 5
      case Finger2X => 6
      case Finger2Y => 7
      case Share => 128
      case Options => 129
      case PS => 130
      case Up => 131
      case Right => 132
      case Down => 133
      case Left => 134
      case Triangle => 135
      case Circle => 136
      case Cross => 137
      case Square => 138
      case L1 => 139
      case R1 => 140
      case L2 => 141
      case R2 => 142
      case L3 => 143
      case R3 => 144
      case Touchpad => 145
      case Finger1 => 146
      case Finger2 => 147
    }

    /** Stick and touch-coordinate axes, as opposed to buttons and touch-presence flags. */
    predicate IsAxis() {
      match this
      case LeftStickX | LeftStickY | RightStickX | RightStickY => true
      case Finger1X | Finger1Y | Finger2X | Finger2Y => true
      case _ => false
    }
  }

  /** The identifier range the enumeration occupies. */
  predicate IsControlCode(c: int) {
    0 <= c <= 7 || 128 <= c <= 147
  }

  /**
   * Lookup by value: the member of the enumeration with value `c`, or `None` where
   * there is none (where `Ps4Controls(c)` would raise `ValueError`).  The client
   * itself never looks controls up; this is the inverse that shows the values distinct.
   */
  function FromCode(c: int): (k: Option<Ps4Control>)
    ensures k.Some? <==> IsControlCode(c)
    ensures k.Some? ==> k.value.Code() == c
  {
    match c
    case 0 => Some(LeftStickX)
    case 1 => Some(LeftStickY)
    case 2 => Some(RightStickX)
    case 3 => Some(RightStickY)
    case 4 => Some(Finger1X)
    case 5 => Some(Finger1Y)
    case 6 => Some(Finger2X)
    case 7 => Some(Finger2Y)
    case 128 => Some(Share)
    case 129 => Some(Options)
    case 130 => Some(PS)
    case 131 => Some(Up)
    case 132 => Some(Right)
    case 133 => Some(Down)
    case 134 => Some(Left)
    case 135 => Some(Triangle)
    case 136 => Some(Circle)
    case 137 => Some(Cross)
    case 138 => Some(Square)
    case 139 => Some(L1)
    case 140 => Some(R1)
    case 141 => Some(L2)
    case 142 => Some(R2)
    case 143 => Some(L3)
    case 144 => Some(R3)
    case 145 => Some(Touchpad)
    case 146 => Some(Finger1)
    case 147 => Some(Finger2)
    case _ => None
  }

  /** No two controls share a value: looking a control's value up gives that control back. */
  lemma CodeInjective(k: Ps4Control, j: Ps4Control)
    ensures FromCode(k.Code()) == Some(k)
    ensures k.Code() == j.Code() ==> k == j
  {
  }

  /** The two values a button or flag takes. */
  datatype ButtonState = Released | Pressed {
    function Code(): (c: int)
      ensures IsByte(c)
      ensures this == Released <==> c == 0
    {
      match this
      case Released => 0
      case Pressed => 255
    }
  }

  /** On the wire a button value is an ordinary four-byte value whose top three bytes are zero. */
  lemma ButtonStateBytes(s: ButtonState)
    ensures ValueBytes(s.Code()) == [0, 0, 0, s.Code()]
    ensures s == Pressed ==> ValueBytes(s.Code()) == [0x00, 0x00, 0x00, 0xFF]
  {
  }

  /** The set of identifiers in 0..7 and 128..147. */
  function ControlCodes(): (s: set<int>)
    ensures forall c :: c in s <==> IsControlCode(c)
  {
    set c | 0 <= c <= 147 && IsControlCode(c)
  }

  predicate Within(lo: int, hi: int, c: int) {
    lo <= c < hi
  }

  // `Within` repeats the bound so that the comprehension has a term to trigger on;
  // the bare comparison `lo <= c < hi` gives the verifier none.
  function Range(lo: int, hi: int): (s: set<int>)
    ensures forall c :: c in s <==> lo <= c < hi
  {
    set c | lo <= c < hi && Within(lo, hi, c)
  }

  lemma {:induction false} RangeSize(lo: int, hi: int)
    requires lo <= hi
    ensures |Range(lo, hi)| == hi - lo
    decreases hi - lo
  {
    if lo < hi {
      RangeSize(lo, hi - 1);
      assert Range(lo, hi) == Range(lo, hi - 1) + {hi - 1};
    } else {
      assert Range(lo, hi) == {};
    }
  }

  /** The enumeration has exactly 28 members' worth of identifiers. */
  lemma ControlCodesSize()
    ensures |ControlCodes()| == 28
  {
    RangeSize(0, 8);
    RangeSize(128, 148);
    assert ControlCodes() == Range(0, 8) + Range(128, 148);
    assert Range(0, 8) !! Range(128, 148);
  }

  /** A sequence without repeats drawn from a finite set is no longer than the set. */
  lemma {:induction false} DistinctWithin(xs: seq<int>, s: set<int>)
    requires forall i, j :: 0 <= i < j < |xs| ==> xs[i] != xs[j]
    requires forall i :: 0 <= i < |xs| ==> xs[i] in s
    ensures |xs| <= |s|
  {
    if xs != [] {
      var rest := s - {xs[0]};
      forall i | 0 <= i < |xs[1..]|
        ensures xs[1..][i] in rest
      {
        assert xs[1..][i] == xs[i + 1];
      }
      DistinctWithin(xs[1..], rest);
    }
  }
}
