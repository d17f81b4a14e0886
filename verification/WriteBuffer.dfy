/** The installer's write buffer: adjacent block writes are gathered before they go to the device. */
module WriteBuffer {

  type Bytes = seq<bv8>

  const BUFFER_SIZE := 1048576

  /** The disk with some bytes written over it. */
  function Overlay(disk: Bytes, offset: nat, data: Bytes): (r: Bytes)
    requires offset + |data| <= |disk|
    ensures |r| == |disk|
  {
    disk[..offset] + data + disk[offset + |data|..]
  }

  lemma OverlayNothing(disk: Bytes, offset: nat)
    requires offset <= |disk|
    ensures Overlay(disk, offset, []) == disk
  {
  }

  /** Two writes one behind the other are one longer write. */
  lemma OverlayTwice(disk: Bytes, offset: nat, a: Bytes, b: Bytes)
    requires offset + |a| + |b| <= |disk|
    ensures Overlay(Overlay(disk, offset, a), offset + |a|, b) == Overlay(disk, offset, a + b)
  {
    var x, y := Overlay(Overlay(disk, offset, a), offset + |a|, b), Overlay(disk, offset, a + b);
    assert forall i :: 0 <= i < |disk| ==> x[i] == y[i];
  }

  class Installer {
    /** The partition on the device. */
    var device: Bytes
    var writeOffset: nat
    var writeBytes: nat
    const writeBuffer: array<bv8>
    var formatError: bool
    /** The disk if every block had been written at once. */
    ghost var ideal: Bytes

    /** Unless an error has been recorded, the device with the pending bytes over it is the ideal disk. */
    ghost predicate Valid()
      reads this, writeBuffer
    {
      && writeBuffer.Length == BUFFER_SIZE && writeBytes <= BUFFER_SIZE
      && writeOffset + writeBytes <= |device| == |ideal|
      && (!formatError ==> Overlay(device, writeOffset, writeBuffer[..writeBytes]) == ideal)
    }

    constructor (partition: Bytes)
      ensures Valid() && fresh(writeBuffer) && device == partition && ideal == partition && !formatError
    {
      device, ideal := partition, partition;
      writeOffset, writeBytes, formatError := 0, 0, false;
      writeBuffer := new bv8[BUFFER_SIZE];
    }

    /** The device either takes the bytes, or reports an error and holds anything. */
    method DeviceWrite(offset: nat, data: Bytes) returns (success: bool)
      requires offset + |data| <= |device|
      modifies `device
      ensures |device| == |old(device)| && (success ==> device == Overlay(old(device), offset, data))
    {
      success := *;
      if success {
        device := Overlay(device, offset, data);
      } else {
        var left: Bytes :| |left| == |device|;
        device := left;
      }
    }

    /** `FlushWriteBuffer` */
    method Flush() returns (success: bool)
      requires Valid()
      modifies `device, `writeBytes, `formatError
      ensures Valid() && writeBytes == 0 && |device| == |old(device)|
      ensures formatError == (old(formatError) || !success)
      ensures !formatError ==> device == ideal
    {
      if writeBytes == 0 {
        OverlayNothing(device, writeOffset);
        assert writeBuffer[..0] == [];
        return true;
      }
      success := DeviceWrite(writeOffset, writeBuffer[..writeBytes]);
      writeBytes := 0;
      OverlayNothing(device, writeOffset);
      assert writeBuffer[..0] == [];
      if !success { formatError := true; }
    }

    /** `ReadBlock`: a read sees every earlier write. */
    method ReadBlock(offset: nat, bytes: nat) returns (success: bool, data: Bytes)
      requires Valid() && offset + bytes <= |device|
      modifies `device, `writeBytes, `formatError
      ensures Valid() && |device| == |old(device)| && (old(formatError) ==> formatError)
      ensures success && !formatError ==> data == ideal[offset..offset + bytes]
      ensures !success ==> formatError
    {
      data := [];
      success := Flush();
      if !success {
        return;
      }
      success := *;
      if success {
        data := device[offset..offset + bytes];
      } else {
        formatError := true;
      }
    }

    method Gather(at: nat, data: Bytes)
      requires writeBuffer.Length == BUFFER_SIZE && at + |data| <= BUFFER_SIZE
      modifies writeBuffer
      ensures writeBuffer[..at + |data|] == old(writeBuffer[..at]) + data
    {
      for i := 0 to |data|
        invariant writeBuffer[..at + i] == old(writeBuffer[..at]) + data[..i]
      {
        writeBuffer[at + i] := data[i];
      }
    }

    /** `WriteBlock`: the bytes join those pending if they follow them, or those pending go to the device first. */
    method WriteBlock(offset: nat, data: Bytes) returns (success: bool)
      requires Valid() && offset + |data| <= |device| && |data| <= BUFFER_SIZE
      modifies this, writeBuffer
      ensures Valid() && |device| == |old(device)| && ideal == Overlay(old(ideal), offset, data)
      ensures old(formatError) ==> formatError
      ensures !success ==> formatError
    {
      hide Overlay;
      if writeBytes > 0 && writeOffset + writeBytes == offset && writeBytes + |data| < BUFFER_SIZE {
        AppendPending(offset, data);
        return true;
      }
      success := Flush();
      ideal := Overlay(ideal, offset, data);
      if success {
        StartPending(offset, data);
      }
    }

    method AppendPending(offset: nat, data: Bytes)
      requires Valid() && writeOffset + writeBytes == offset && offset + |data| <= |device|
               && writeBytes + |data| <= BUFFER_SIZE
      modifies `writeBytes, `ideal, writeBuffer
      ensures Valid() && ideal == Overlay(old(ideal), offset, data)
    {
      hide Overlay;
      OverlayTwice(device, writeOffset, writeBuffer[..writeBytes], data);
      Gather(writeBytes, data);
      writeBytes := writeBytes + |data|;
      ideal := Overlay(ideal, offset, data);
    }

    method StartPending(offset: nat, data: Bytes)
      requires writeBuffer.Length == BUFFER_SIZE && |data| <= BUFFER_SIZE && offset + |data| <= |device| == |ideal|
      requires !formatError ==> Overlay(device, offset, data) == ideal
      modifies `writeOffset, `writeBytes, writeBuffer
      ensures Valid()
    {
      hide Overlay;
      writeOffset := offset;
      writeBytes := |data|;
      Gather(0, data);
      assert old(writeBuffer[..0]) + data == data;
    }
  }
}
