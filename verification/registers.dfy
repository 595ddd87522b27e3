/** Machine register names of the RV32 target.

    The allocator handles registers by their text name ("t3", "s0",
    "a7", "x0") and recovers bank and index by reading the first
    character and parsing the rest as a `usize`
    (src/asm_generator/register_manager.rs:48-58, :83-93).  Here a register
    is a typed value; `RegName` renders it and `ParseRegName` reproduces
    the letter-plus-number reading, with a round-trip lemma tying the two. */
module Registers {
  import opened Wrappers
  import opened Words

  const TEMP_COUNT: nat := 7
  const SAVED_COUNT: nat := 12
  const ARG_COUNT: nat := 8

  type TIdx = i: nat | i < TEMP_COUNT
  type SIdx = i: nat | i < SAVED_COUNT
  type AIdx = i: nat | i < ARG_COUNT

  /** t0-t6, s0-s11, a0-a7 and the hard-wired zero register. */
  datatype Reg = T(t: TIdx) | S(s: SIdx) | A(a: AIdx) | X0

  /** The return-value register of the calling convention. */
  const RETURN_REG: Reg := A(0)

  /** A bank letter (or 'x' for the zero register) followed by the
      index in decimal. */
  function RegName(r: Reg): (name: string)
    ensures |name| >= 2 && name[0] in {'t', 's', 'a', 'x'} && AllDigits(name[1..])
  {
    match r
    case T(i) => "t" + NatToString(i)
    case S(i) => "s" + NatToString(i)
    case A(i) => "a" + NatToString(i)
    case X0 => "x0"
  }

  /** A name split into its bank letter and parsed index; `None` where the
      source panics: an empty name, a first character of more than one
      UTF-8 byte (so that the byte slice `reg[1..]` cuts it), or a suffix
      `usize::from_str` rejects. */
  function SplitName(name: string): (r: Option<(char, nat)>)
    ensures r.Some? ==> |name| >= 2 && r.value.0 == name[0] && (name[0] as int) < 0x80
    ensures r.Some? <==> |name| > 0 && (name[0] as int) < 0x80 && ParseUsize(name[1..]).Some?
  {
    if |name| == 0 || (name[0] as int) >= 0x80 then None
    else
      match ParseUsize(name[1..])
      case None => None
      case Some(n) => Some((name[0], n))
  }

  /** The register a name denotes, if it names a bank slot or `x0`. */
  function ParseRegName(name: string): Option<Reg>
  {
    match SplitName(name)
    case None => None
    case Some((c, n)) =>
      if c == 't' && n < TEMP_COUNT then Some(T(n))
      else if c == 's' && n < SAVED_COUNT then Some(S(n))
      else if c == 'a' && n < ARG_COUNT then Some(A(n))
      else if c == 'x' && n == 0 then Some(X0)
      else None
  }

  lemma SplitRegName(r: Reg)
    ensures SplitName(RegName(r)) == Some((RegName(r)[0], match r
                                                            case T(i) => i
                                                            case S(i) => i
                                                            case A(i) => i
                                                            case X0 => 0))
  {
    var name := RegName(r);
    match r
    case T(i) =>
      assert name[1..] == NatToString(i);
      ParseNatToString(i);
    case S(i) =>
      assert name[1..] == NatToString(i);
      ParseNatToString(i);
    case A(i) =>
      assert name[1..] == NatToString(i);
      ParseNatToString(i);
    case X0 =>
      assert name[1..] == "0" == NatToString(0);
      ParseNatToString(0);
  }

  /** Every register name reads back as the register it was rendered from. */
  lemma ParseRegNameRoundTrip(r: Reg)
    ensures ParseRegName(RegName(r)) == Some(r)
  {
    SplitRegName(r);
  }

  /** Distinct registers have distinct names. */
  lemma RegNameInjective(r1: Reg, r2: Reg)
    ensures RegName(r1) == RegName(r2) <==> r1 == r2
  {
    if RegName(r1) == RegName(r2) {
      ParseRegNameRoundTrip(r1);
      ParseRegNameRoundTrip(r2);
    }
  }
}
