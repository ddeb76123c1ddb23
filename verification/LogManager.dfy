/** The append-only data log: src/log_manager.rs. */
module LogManager {
  import opened Common
  import opened Crc32

  type Device = nat -> u8

  /** How a device write ends: a failed one may leave some of its bytes behind, and one that reports success may
      have landed short, because the number of bytes written is not looked at. */
  datatype DeviceFault = NoFault | Torn(junk: seq<u8>) | Short(landed: nat)

  /** How a device read ends: it may be refused, and one that reports success may have stopped short, because the
      number of bytes read is not looked at. */
  datatype ReadFault = Complete | Refused | Ends(got: nat)

  /** The device after `data` is written at `at`. */
  function Overwritten(device: Device, at: nat, data: seq<u8>): Device {
    (p: nat) => if at <= p < at + |data| then data[p - at] else device(p)
  }

  /** What the device holds in `n` bytes from `at` on. */
  function Bytes(device: Device, at: nat, n: nat): (b: seq<u8>)
    ensures |b| == n && forall i :: 0 <= i < n ==> b[i] == device(at + i)
  {
    seq(n, i requires 0 <= i < n => device(at + i))
  }

  /** The bytes that a write of `data` leaves on the device. */
  function Landed(data: seq<u8>, fault: DeviceFault): seq<u8> {
    match fault
    case NoFault => data
    case Torn(junk) => if |junk| <= |data| then junk else junk[..|data|]
    case Short(landed) => if landed <= |data| then data[..landed] else data
  }

  /** What a read that reports success leaves in the buffer `was`. */
  function ReadInto(device: Device, at: nat, was: seq<u8>, fault: ReadFault): (b: seq<u8>)
    ensures |b| == |was|
    ensures forall i :: 0 <= i < |b| ==> b[i] == if fault.Ends? && fault.got <= i then was[i] else device(at + i)
  {
    seq(|was|, i requires 0 <= i < |was| => if fault.Ends? && fault.got <= i then was[i] else device(at + i))
  }

  class LogManager {
    var device: Device
    var nextAppendPos: nat

    constructor (device: Device, nextAppendPos: nat)
      ensures this.device == device && this.nextAppendPos == nextAppendPos
    {
      this.device, this.nextAppendPos := device, nextAppendPos;
    }

    /** Appends `data` and returns where it starts; a failed append does not advance the log. */
    method AppendData(data: seq<u8>, fault: DeviceFault) returns (r: Result<nat>)
      modifies this
      ensures r == if fault.Torn? then Err(Io) else Ok(old(nextAppendPos))
      ensures device == Overwritten(old(device), old(nextAppendPos), Landed(data, fault))
      ensures nextAppendPos == old(nextAppendPos) + if fault.Torn? then 0 else |data|
    {
      var currentPos := nextAppendPos;
      var _ := Compute(data);
      device := Overwritten(device, currentPos, Landed(data, fault));
      if fault.Torn? {
        return Err(Io);
      }
      nextAppendPos := nextAppendPos + |data|;
      r := Ok(currentPos);
    }

    /** Reads into a buffer that held `was`. */
    method ReadData(pos: nat, was: seq<u8>, fault: ReadFault) returns (r: Result<seq<u8>>)
      ensures r == if fault.Refused? then Err(Io) else Ok(ReadInto(device, pos, was, fault))
    {
      if fault.Refused? {
        return Err(Io);
      }
      r := Ok(ReadInto(device, pos, was, fault));
    }
  }
}
