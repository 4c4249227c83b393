/** The UDP colour listener: it turns each datagram into one colour per LED
    and hands it to the engine, and it can be switched on and off. The socket,
    the engine and the logger are outside the model: binding is an input, and
    every call the listener makes into the engine is returned as a value. */
module Udp {
  import opened Json

  newtype byte = x: int | 0 <= x < 256

  /** One LED colour, three 8-bit channels. */
  datatype ColorRgb = ColorRgb(red: byte, green: byte, blue: byte)

  const Black := ColorRgb(0, 0, 0)

  datatype Component = UdpListenerComponent | OtherComponent(name: string)

  /** The address to bind to; `NullAddress` is a default-constructed address. */
  datatype HostAddress = NullAddress | AnyIPv4 | Address(text: string)

  datatype BindMode = ShareAddress | DefaultForPlatform

  /** A datagram as read from the socket, with the sender's address as text. */
  datatype Datagram = Datagram(data: seq<byte>, sender: string)

  /** The calls the listener makes into the engine and its component register. */
  datatype EngineCall =
    | RegisterPriority(name: string, priority: int)
    | UnRegisterPriority(name: string)
    | SetComponentState(component: Component, enabled: bool)
    | SetColors(priority: int, ledColors: seq<ColorRgb>, timeoutMs: int, clearEffect: int,
                origin: Component, sender: string)
    | Clear(priority: int)

  /** The name under which the listener registers its priority channel. */
  const PriorityName := "UDPLISTENER"

  /** The timeout a colour frame is kept for when the settings give none. */
  const DefaultTimeoutMs := 10000

  /** What a successful start reports to the engine. */
  function StartCalls(priority: int): (r: seq<EngineCall>)
  {
    [RegisterPriority(PriorityName, priority), SetComponentState(UdpListenerComponent, true)]
  }

  /** What stopping an active listener reports to the engine. */
  function StopCalls(): (r: seq<EngineCall>)
  {
    [UnRegisterPriority(PriorityName), SetComponentState(UdpListenerComponent, false)]
  }

  /** Reference decoding, read as a stream: each LED takes the next three bytes
      of the datagram while three remain, and is black once they run out. */
  function Frame(datagram: seq<byte>, ledCount: nat): (r: seq<ColorRgb>)
    decreases ledCount
  {
    if ledCount == 0 then []
    else if |datagram| < 3 then [Black] + Frame(datagram, ledCount - 1)
    else [ColorRgb(datagram[0], datagram[1], datagram[2])] + Frame(datagram[3..], ledCount - 1)
  }

  /** The colour at LED `i` when it is covered by the datagram. */
  function TripleAt(datagram: seq<byte>, i: nat): (r: ColorRgb)
    requires 3 * i + 2 < |datagram|
  {
    ColorRgb(datagram[3 * i], datagram[3 * i + 1], datagram[3 * i + 2])
  }

  /** A decoded frame has one colour per LED of the engine; LED `i` holds
      bytes 3i, 3i+1, 3i+2 when the packet's LED count `|datagram| / 3`
      exceeds `i`, and is black otherwise. */
  lemma {:induction false} FrameLayout(datagram: seq<byte>, ledCount: nat)
    ensures |Frame(datagram, ledCount)| == ledCount
    ensures forall i :: 0 <= i < ledCount ==>
      Frame(datagram, ledCount)[i] == if i < |datagram| / 3 then TripleAt(datagram, i) else Black
  {
    if ledCount > 0 {
      var f := Frame(datagram, ledCount);
      if |datagram| < 3 {
        FrameLayout(datagram, ledCount - 1);
        assert f == [Black] + Frame(datagram, ledCount - 1);
      } else {
        var rest := datagram[3..];
        FrameLayout(rest, ledCount - 1);
        assert f == [TripleAt(datagram, 0)] + Frame(rest, ledCount - 1);
        assert |rest| / 3 == |datagram| / 3 - 1;
        forall i | 1 <= i < ledCount
          ensures f[i] == if i < |datagram| / 3 then TripleAt(datagram, i) else Black
        {
          assert f[i] == Frame(rest, ledCount - 1)[i - 1];
          if i < |datagram| / 3 {
            assert TripleAt(rest, i - 1) == TripleAt(datagram, i);
          }
        }
      }
    }
  }

  /** One or two bytes after the last whole triple change nothing. */
  lemma TrailingBytesIgnored(datagram: seq<byte>, ledCount: nat)
    ensures Frame(datagram, ledCount) == Frame(datagram[..3 * (|datagram| / 3)], ledCount)
  {
    var whole := datagram[..3 * (|datagram| / 3)];
    FrameLayout(datagram, ledCount);
    FrameLayout(whole, ledCount);
    assert |whole| / 3 == |datagram| / 3;
    forall i | 0 <= i < ledCount && i < |datagram| / 3
      ensures TripleAt(whole, i) == TripleAt(datagram, i)
    {
    }
  }

  /** Triples beyond the engine's LED count change nothing. */
  lemma ExcessTriplesIgnored(datagram: seq<byte>, ledCount: nat)
    requires 3 * ledCount <= |datagram|
    ensures Frame(datagram, ledCount) == Frame(datagram[..3 * ledCount], ledCount)
  {
    var used := datagram[..3 * ledCount];
    FrameLayout(datagram, ledCount);
    FrameLayout(used, ledCount);
    assert |used| / 3 == ledCount;
    forall i | 0 <= i < ledCount
      ensures TripleAt(used, i) == TripleAt(datagram, i)
    {
    }
  }

  class UdpListener {
    var isActive: bool
    var priority: int
    var timeout: int
    var listenAddress: HostAddress
    var listenPort: int
    var bondage: BindMode

    /** The member initialisers: inactive, priority, timeout and port 0. */
    constructor ()
      ensures !isActive && priority == 0 && timeout == 0 && listenPort == 0
      ensures listenAddress == NullAddress && bondage == DefaultForPlatform
    {
      isActive := false;
      priority := 0;
      timeout := 0;
      listenAddress := NullAddress;
      listenPort := 0;
      bondage := DefaultForPlatform;
    }

    /** Constructing a listener applies its configuration at once. */
    static method Create(config: JsonObject, bindOk: bool) returns (l: UdpListener, calls: seq<EngineCall>)
      ensures fresh(l)
      ensures l.isActive == (ToBool(Field(config, "enable")) && bindOk)
      ensures l.priority == ToInt(Field(config, "priority"))
      ensures l.timeout == ToInt(Field(config, "timeout"), DefaultTimeoutMs)
      ensures l.listenAddress ==
        (var addr := ToStr(Field(config, "address")); if addr == "" then AnyIPv4 else Address(addr))
      ensures l.bondage == if ToBool(Field(config, "shared")) then ShareAddress else DefaultForPlatform
      ensures l.listenPort == 0
      ensures calls == if l.isActive then StartCalls(l.priority) else []
    {
      l := new UdpListener();
      calls := l.HandleSettingsUpdate(config, bindOk);
    }

    /** Bind and go active; does nothing when already active, and stays
        inactive, reporting nothing, when the bind fails. */
    method Start(bindOk: bool) returns (calls: seq<EngineCall>)
      modifies this
      ensures old(isActive) || !bindOk ==> unchanged(this) && calls == []
      ensures !old(isActive) && bindOk ==> isActive && calls == StartCalls(priority)
      ensures priority == old(priority) && timeout == old(timeout) && listenPort == old(listenPort)
      ensures listenAddress == old(listenAddress) && bondage == old(bondage)
    {
      calls := [];
      if isActive {
        return;
      }
      if bindOk {
        isActive := true;
        calls := StartCalls(priority);
      }
    }

    /** Close and go inactive; does nothing when already inactive. */
    method Stop() returns (calls: seq<EngineCall>)
      modifies this
      ensures !old(isActive) ==> unchanged(this) && calls == []
      ensures old(isActive) ==> !isActive && calls == StopCalls()
      ensures priority == old(priority) && timeout == old(timeout) && listenPort == old(listenPort)
      ensures listenAddress == old(listenAddress) && bondage == old(bondage)
    {
      calls := [];
      if !isActive {
        return;
      }
      isActive := false;
      calls := StopCalls();
    }

    /** The component register switching components on and off: only a
        request for this listener that differs from its state has an effect. */
    method ComponentStateChanged(component: Component, enable: bool, bindOk: bool)
      returns (calls: seq<EngineCall>)
      modifies this
      ensures component != UdpListenerComponent || enable == old(isActive) ==>
        unchanged(this) && calls == []
      ensures component == UdpListenerComponent && enable && !old(isActive) ==>
        isActive == bindOk && calls == (if bindOk then StartCalls(priority) else [])
      ensures component == UdpListenerComponent && !enable && old(isActive) ==>
        !isActive && calls == StopCalls()
      ensures priority == old(priority) && timeout == old(timeout) && listenPort == old(listenPort)
      ensures listenAddress == old(listenAddress) && bondage == old(bondage)
    {
      calls := [];
      if component == UdpListenerComponent {
        if isActive != enable {
          if enable {
            calls := Start(bindOk);
          } else {
            calls := Stop();
          }
        }
      }
    }

    /** Decode one datagram into a frame of `ledCount` colours and send it
        to the engine on this listener's priority, for its timeout. */
    method ProcessTheDatagram(datagram: seq<byte>, sender: string, ledCount: nat)
      returns (call: EngineCall)
      ensures call == SetColors(priority, Frame(datagram, ledCount), timeout, -1,
                                UdpListenerComponent, sender)
    {
      var packetLedCount := |datagram| / 3;
      var ledColors := new ColorRgb[ledCount](_ => Black);
      var n := if packetLedCount < ledCount then packetLedCount else ledCount;
      var ledIndex := 0;
      while ledIndex < n
        invariant 0 <= ledIndex <= n
        invariant forall i :: 0 <= i < ledIndex ==> ledColors[i] == TripleAt(datagram, i)
        invariant forall i :: ledIndex <= i < ledCount ==> ledColors[i] == Black
      {
        ledColors[ledIndex] := ColorRgb(datagram[ledIndex * 3 + 0], datagram[ledIndex * 3 + 1],
                                        datagram[ledIndex * 3 + 2]);
        ledIndex := ledIndex + 1;
      }
      FrameLayout(datagram, ledCount);
      call := SetColors(priority, ledColors[..], timeout, -1, UdpListenerComponent, sender);
    }

    /** Drain the socket: one colour frame per pending datagram, in order. */
    method ReadPendingDatagrams(datagrams: seq<Datagram>, ledCount: nat)
      returns (calls: seq<EngineCall>)
      ensures |calls| == |datagrams|
      ensures forall k :: 0 <= k < |datagrams| ==>
        calls[k] == SetColors(priority, Frame(datagrams[k].data, ledCount), timeout, -1,
                              UdpListenerComponent, datagrams[k].sender)
    {
      calls := [];
      var k := 0;
      while k < |datagrams|
        invariant 0 <= k <= |datagrams|
        invariant |calls| == k
        invariant forall j :: 0 <= j < k ==>
          calls[j] == SetColors(priority, Frame(datagrams[j].data, ledCount), timeout, -1,
                                UdpListenerComponent, datagrams[j].sender)
      {
        var call := ProcessTheDatagram(datagrams[k].data, datagrams[k].sender, ledCount);
        calls := calls + [call];
        k := k + 1;
      }
    }

    /** Apply a new configuration: take over priority, timeout, address and
        sharing, stop, and start again only when `enable` is set. */
    method HandleSettingsUpdate(obj: JsonObject, bindOk: bool) returns (calls: seq<EngineCall>)
      modifies this
      ensures priority == ToInt(Field(obj, "priority"))
      ensures timeout == ToInt(Field(obj, "timeout"), DefaultTimeoutMs)
      ensures listenAddress ==
        (var addr := ToStr(Field(obj, "address")); if addr == "" then AnyIPv4 else Address(addr))
      ensures bondage == if ToBool(Field(obj, "shared")) then ShareAddress else DefaultForPlatform
      ensures listenPort == old(listenPort)
      ensures isActive == (ToBool(Field(obj, "enable")) && bindOk)
      ensures calls == (if old(isActive) then StopCalls() else [])
                       + (if isActive then StartCalls(priority) else [])
    {
      var addr := ToStr(Field(obj, "address"));
      priority := ToInt(Field(obj, "priority"));
      timeout := ToInt(Field(obj, "timeout"), DefaultTimeoutMs);
      listenAddress := if addr == "" then AnyIPv4 else Address(addr);
      bondage := if ToBool(Field(obj, "shared")) then ShareAddress else DefaultForPlatform;
      calls := Stop();
      if ToBool(Field(obj, "enable")) {
        var started := Start(bindOk);
        calls := calls + started;
      }
    }

    /** The destructor: stop, then clear this listener's priority channel. */
    method Destroy() returns (calls: seq<EngineCall>)
      modifies this
      ensures !isActive
      ensures calls == (if old(isActive) then StopCalls() else []) + [Clear(old(priority))]
      ensures priority == old(priority) && timeout == old(timeout) && listenPort == old(listenPort)
      ensures listenAddress == old(listenAddress) && bondage == old(bondage)
    {
      calls := Stop();
      calls := calls + [Clear(priority)];
    }
  }
}
