/**
 * The preload bridge exposed to the renderer as `window.electron`: `send` and `invoke`
 * forward only whitelisted channels to the main process, and `receive` registers a listener
 * on a whitelisted channel after removing every listener already on it. Payloads and renderer
 * callbacks are opaque tokens; the main process's side of `invoke` is not part of this model.
 */
module Preload {

  /** Channels the renderer may `send` on. */
  const SendChannels: seq<string> := ["toMain", "save-data", "save-as-data"]

  /** Channels the renderer may `receive` on. */
  const ReceiveChannels: seq<string> := [
    "fromMain", "file-opened", "file-saved", "request-save-data", "request-save-as-data",
    "create-new-file", "request-export-package", "export-progress-update"]

  /** Channels the renderer may `invoke`. */
  const InvokeChannels: seq<string> := [
    "getVideoMetadata", "fsExistsSync", "fsStatSync", "fsReadFileSync",
    "select-video-file", "perform-export"]

  /** A serialized argument of an IPC message. */
  type Payload = string

  /** A renderer callback, identified by a token. */
  type Callback = nat

  /** A message handed to `ipcRenderer`. */
  datatype Message = Message(channel: string, args: seq<Payload>)

  /** What `invoke` returns: the forwarded request's promise, or a rejected promise. */
  datatype Reply = Forwarded(request: Message) | Rejected(reason: string)

  /** The listener registry of `ipcRenderer`: the listeners of each channel, in order. */
  type Registry = map<string, seq<Callback>>

  /** The rejection message ``未授权的通道: ${channel}``, which names the channel. */
  function RejectionReason(channel: string): (m: string)
    ensures |m| > |channel| && m[|m| - |channel|..] == channel
  {
    "未授权的通道: " + channel
  }

  /** `invoke(channel, ...args)`: forwards exactly the whitelisted channels, rejects the rest. */
  function InvokeReply(channel: string, args: seq<Payload>): (r: Reply)
    ensures r.Forwarded? <==> channel in InvokeChannels
    ensures r.Forwarded? ==> r.request == Message(channel, args)
    ensures r.Rejected? ==> |r.reason| > |channel| && r.reason[|r.reason| - |channel|..] == channel
  {
    if channel in InvokeChannels then Forwarded(Message(channel, args)) else Rejected(RejectionReason(channel))
  }

  /** `removeAllListeners(channel)` followed by `on(channel, listener)`. */
  function Replace(registry: Registry, channel: string, listener: Callback): (r: Registry)
    ensures r.Keys == registry.Keys + {channel}
    ensures r[channel] == [listener]
    ensures forall c :: c in registry && c != channel ==> r[c] == registry[c]
  {
    registry[channel := [listener]]
  }

  /** Registering twice on one channel leaves only the second listener: no duplicates pile up. */
  lemma ReplaceTwice(registry: Registry, channel: string, first: Callback, second: Callback)
    ensures Replace(Replace(registry, channel, first), channel, second) == Replace(registry, channel, second)
  {
  }

  /** The bridge and the part of `ipcRenderer` it drives. */
  class Bridge {
    /** The listener registry. */
    var listeners: Registry
    /** The messages forwarded by `send`, oldest first. */
    var sent: seq<Message>
    /** The requests forwarded by `invoke`, oldest first. */
    var invoked: seq<Message>

    constructor (initial: Registry)
      ensures listeners == initial && sent == [] && invoked == []
    {
      listeners := initial;
      sent := [];
      invoked := [];
    }

    /** The callbacks a message from the main process on `channel` reaches. */
    function Listeners(channel: string): seq<Callback>
      reads this
    {
      if channel in listeners then listeners[channel] else []
    }

    /** `send(channel, data)`: forwards a whitelisted channel, silently drops any other. */
    method Send(channel: string, data: Payload)
      modifies this
      ensures sent == if channel in SendChannels then old(sent) + [Message(channel, [data])] else old(sent)
      ensures listeners == old(listeners) && invoked == old(invoked)
    {
      if channel in SendChannels {
        sent := sent + [Message(channel, [data])];
      }
    }

    /**
     * `receive(channel, callback)`: on a whitelisted channel the new listener becomes the only
     * one; a channel outside the whitelist leaves the registry as it was.
     */
    method Receive(channel: string, callback: Callback)
      modifies this
      ensures listeners == if channel in ReceiveChannels then Replace(old(listeners), channel, callback) else old(listeners)
      ensures channel in ReceiveChannels ==> Listeners(channel) == [callback]
      ensures forall c :: c != channel ==> Listeners(c) == old(Listeners(c))
      ensures sent == old(sent) && invoked == old(invoked)
    {
      if channel in ReceiveChannels {
        listeners := Replace(listeners, channel, callback);
      }
    }

    /** `invoke(channel, ...args)`: records a forwarded request; never touches the registry. */
    method Invoke(channel: string, args: seq<Payload>) returns (r: Reply)
      modifies this
      ensures r == InvokeReply(channel, args)
      ensures invoked == if r.Forwarded? then old(invoked) + [r.request] else old(invoked)
      ensures listeners == old(listeners) && sent == old(sent)
    {
      r := InvokeReply(channel, args);
      if r.Forwarded? {
        invoked := invoked + [r.request];
      }
    }
  }

  /**
   * The send channels are not invoke channels: invoking one of them is rejected with the
   * message naming it, and nothing is forwarded.
   */
  lemma SendChannelsNotInvokable(channel: string, args: seq<Payload>)
    requires channel in SendChannels
    ensures InvokeReply(channel, args) == Rejected(RejectionReason(channel))
  {
    assert channel == "toMain" || channel == "save-data" || channel == "save-as-data";
  }

  /** The receive channels are not invoke channels either: the main process cannot be asked on them. */
  lemma ReceiveChannelsNotInvokable(channel: string, args: seq<Payload>)
    requires channel in ReceiveChannels
    ensures InvokeReply(channel, args) == Rejected(RejectionReason(channel))
  {
  }
}
