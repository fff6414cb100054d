/** Interrupt handlers: each drains its hardware and posts one message, without blocking. */
module IsrHandlers {
  import opened Common
  import opened Rtos
  import opened Mctp
  import opened NicGenMgr

  const NIC_EVENT_HW_ERROR := 0

  /** The part of a hardware block that fits a message. */
  function Clamped(data: Bytes): (m: RxMsg)
    ensures m <= data && (m == data || |m| == 32 < |data|)
  {
    if |data| > SMB_MAX_BLOCK_SIZE then data[..SMB_MAX_BLOCK_SIZE] else data
  }

  const ALERT_EVENT := NicEvent(NIC_EVENT_HW_ERROR, 0)

  /** The clamp and the unrolled copy of the I2C receive handler. */
  method CopyBlock(data: array<Byte>, length: nat) returns (msg: RxMsg)
    requires length <= data.Length
    ensures msg == Clamped(data[..length])
  {
    var buf := new Byte[SMB_MAX_BLOCK_SIZE];
    var n := if length > SMB_MAX_BLOCK_SIZE then SMB_MAX_BLOCK_SIZE else length;
    var i := 0;
    var copy4 := n - n % 4;
    while i < copy4
      invariant i <= copy4 && i % 4 == 0
      invariant forall k :: 0 <= k < i ==> buf[k] == data[k]
    {
      buf[i] := data[i];
      buf[i + 1] := data[i + 1];
      buf[i + 2] := data[i + 2];
      buf[i + 3] := data[i + 3];
      i := i + 4;
    }
    while i < n
      invariant i <= n
      invariant forall k :: 0 <= k < i ==> buf[k] == data[k]
    {
      buf[i] := data[i];
      i := i + 1;
    }
    assert Clamped(data[..length]) == data[..n];
    assert buf[..n] == data[..n];
    msg := buf[..n];
  }

  /** The I2C receive interrupt: the clamped block is queued, or lost when the queue is full or not yet set up. */
  method BmcI2cRxIsr(queue: Queue?<RxMsg>, data: array<Byte>, length: nat)
    requires length <= data.Length && (queue != null ==> queue.Valid())
    modifies queue
    ensures queue != null ==>
      queue.Valid() &&
      queue.items == old(queue.items) + (if old(|queue.items|) < queue.depth then [Clamped(data[..length])] else [])
  {
    if queue == null { return; }
    var msg := CopyBlock(data, length);
    var err := queue.Send(msg);
  }

  /** The alert interrupt: a hardware error event is queued, or lost when the queue is full or not yet set up. */
  method NicAlertIsr(queue: Queue?<NicEvent>)
    requires queue != null ==> queue.Valid()
    modifies queue
    ensures queue != null ==>
      queue.Valid() &&
      queue.items == old(queue.items) + (if old(|queue.items|) < queue.depth then [ALERT_EVENT] else [])
  {
    if queue == null { return; }
    var err := queue.Send(ALERT_EVENT);
  }
}
