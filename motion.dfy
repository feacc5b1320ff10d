/** What a movement request becomes on the two motor channels: the speed clamp and the
    direction table of `move`, and the fixed command of `stop`. The two motors face
    opposite ways, so one direction of travel turns them with different opcodes. */
module Motion {
  import opened Bytes
  import opened CommandWord
  import opened Opt

  const MinSpeed: uint32 := 15
  const MaxSpeed: uint32 := 15600

  /** Opcodes of the two directions of rotation, and of an immediate stop. */
  const TurnOne: uint32 := 0x0E
  const TurnOther: uint32 := 0x0F
  const Halt: uint32 := 0x22

  /** std::min(std::max(speed, min_speed), max_speed) */
  function Clamp(speed: uint32): (r: uint32)
    ensures MinSpeed <= r <= MaxSpeed
    ensures MinSpeed <= speed <= MaxSpeed ==> r == speed
    ensures speed < MinSpeed ==> r == MinSpeed
    ensures MaxSpeed < speed ==> r == MaxSpeed
  {
    var atLeast := if speed < MinSpeed then MinSpeed else speed;
    if MaxSpeed < atLeast then MaxSpeed else atLeast
  }

  /** A motion command for one channel: in its command word the reserved and action bits
      (0-3) are clear, the opcode sits in bits 4-9 and the operand in bits 10-31. */
  function Motor(opcode: uint32, operand: uint32): (c: Smsd)
    ensures Pack(c) % 0x10 == 0
    ensures Pack(c) / 0x10 % 0x40 == opcode % 0x40
    ensures Pack(c) / 0x400 == operand % 0x40_0000
  {
    DivMod((operand % 0x40_0000) * 0x40 + opcode % 0x40, 0, 0x10);
    Smsd(0, 0, opcode, operand)
  }

  /** The commands `move` sends to channel 0 and channel 1, or None for a direction
      character it ignores. */
  function MoveCommands(direction: char, speed: uint32): (r: Option<(Smsd, Smsd)>)
    ensures r.None? <==> direction !in {'f', 'F', 'b', 'B', 's', 'S'}
    ensures r.Some? ==> r.value.0.InRange() && r.value.1.InRange()
    ensures r.Some? ==> r.value.0.reserve == r.value.0.action == r.value.1.reserve == r.value.1.action == 0
    ensures r.Some? ==> r.value.0.data == r.value.1.data
  {
    var operand := Clamp(speed);
    match direction
    case 'f' | 'F' => Some((Motor(TurnOne, operand), Motor(TurnOther, operand)))
    case 'b' | 'B' => Some((Motor(TurnOther, operand), Motor(TurnOne, operand)))
    case 's' | 'S' => Some((Motor(TurnOne, 0), Motor(TurnOther, 0)))
    case _ => None
  }

  /** The commands `stop` sends to channel 0 and channel 1. */
  function StopCommands(): (r: (Smsd, Smsd))
    ensures r.0 == r.1 && r.0.InRange()
  {
    (Motor(Halt, 0), Motor(Halt, 0))
  }

  /** Driving forward turns channel 0 with 0x0E and channel 1 with 0x0F at the clamped
      speed; driving backward swaps the two opcodes and keeps the speed. */
  lemma ForwardAndBackward(speed: uint32)
    ensures MoveCommands('f', speed) == MoveCommands('F', speed)
         == Some((Smsd(0, 0, 0x0E, Clamp(speed)), Smsd(0, 0, 0x0F, Clamp(speed))))
    ensures MoveCommands('b', speed) == MoveCommands('B', speed)
         == Some((Smsd(0, 0, 0x0F, Clamp(speed)), Smsd(0, 0, 0x0E, Clamp(speed))))
  {
  }

  /** The stop character of `move` keeps the forward opcodes and sends operand 0, whatever
      the speed; only `stop` uses opcode 0x22. */
  lemma StopCharacter(speed: uint32)
    ensures MoveCommands('s', speed) == MoveCommands('S', speed) 
         == Some((Smsd(0, 0, 0x0E, 0), Smsd(0, 0, 0x0F, 0)))
    ensures StopCommands() == (Smsd(0, 0, 0x22, 0), Smsd(0, 0, 0x22, 0))
  {
  }
}
