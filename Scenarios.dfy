/**
 * Whole-session runs of the handlers on a fresh registry, with connection ids
 * and payloads chosen by the caller of each handler as the socket layer would.
 */
module Scenarios {
  import opened Wrappers
  import opened Devices
  import opened Signaling

  /** Devices A and B register on address X; B asks for its local devices, A
      leaves (notifying both), and B asks again. */
  method LocalDiscoverySession() returns (first: Option<seq<string>>, notified: Option<seq<string>>, second: Option<seq<string>>)
    ensures first == Some(["A", "B"])
    ensures notified == Some(["A", "B"])
    ensures second == Some(["B"])
  {
    var registry := new Registry();
    var a, b := Device("A", "laptop", "X"), Device("B", "phone", "X");
    var _ := registry.AddConnectedDevice(Some(a));
    var _ := registry.AddConnectedDevice(Some(b));
    assert registry.order == ["A", "B"];
    assert registry.devices == map["A" := a, "B" := b];
    assert LocalIds(["B"], registry.devices, "X") == ["B"];
    first := registry.RequestLocalDevices("B");
    notified := registry.Disconnect("A");
    assert registry.order == ["B"];
    assert registry.devices == map["B" := b];
    second := registry.RequestLocalDevices("B");
  }

  /** A device on another public address is left out of the reply. */
  method OtherAddressExcluded() returns (reply: Option<seq<string>>)
    ensures reply == Some(["A", "C"])
  {
    var registry := new Registry();
    var a, b, c := Device("A", "laptop", "X"), Device("B", "phone", "Y"), Device("C", "tablet", "X");
    var _ := registry.AddConnectedDevice(Some(a));
    assert registry.devices == map["A" := a];
    assert LocalIds(registry.order, registry.devices, "X") == ["A"];
    var _ := registry.AddConnectedDevice(Some(b));
    assert registry.devices == map["A" := a, "B" := b];
    assert LocalIds(registry.order, registry.devices, "X") == ["A"];
    var _ := registry.AddConnectedDevice(Some(c));
    assert registry.devices["C"] == c;
    assert LocalIds(registry.order, registry.devices, "X") == ["A", "C"];
    reply := registry.RequestLocalDevices("C");
  }

  /** A payload missing its device name is dropped: the connection stays
      unknown, so its query and its disconnect emit nothing. */
  method IncompleteRegistration() returns (reply: Option<seq<string>>, notified: Option<seq<string>>)
    ensures reply == None && notified == None
  {
    var registry := new Registry();
    var _ := registry.AddConnectedDevice(Some(Device("A", "", "X")));
    reply := registry.RequestLocalDevices("A");
    notified := registry.Disconnect("A");
  }

  /** The registration key is the socket id in the payload, while queries and
      disconnects look up the connection's own id: connection "c1" registering
      as "c2" stays unknown as "c1", and its disconnect leaves "c2" registered. */
  method PayloadKeyedRegistration() returns (ownReply: Option<seq<string>>, notified: Option<seq<string>>, otherReply: Option<seq<string>>)
    ensures ownReply == None && notified == None
    ensures otherReply == Some(["c2"])
  {
    var registry := new Registry();
    var d := Device("c2", "laptop", "X");
    var _ := registry.AddConnectedDevice(Some(d));
    assert registry.order == ["c2"] && registry.devices == map["c2" := d];
    ownReply := registry.RequestLocalDevices("c1");
    notified := registry.Disconnect("c1");
    assert registry.order == ["c2"] && registry.devices == map["c2" := d];
    assert LocalIds(["c2"], registry.devices, "X") == ["c2"];
    otherReply := registry.RequestLocalDevices("c2");
  }

  /** Re-registering an id with a new address moves it between replies while
      keeping its original place in the key order. */
  method ReRegistration() returns (before: Option<seq<string>>, after: Option<seq<string>>)
    ensures before == Some(["A", "B"])
    ensures after == Some(["B"])
  {
    var registry := new Registry();
    var a, b, a' := Device("A", "laptop", "X"), Device("B", "phone", "X"), Device("A", "laptop", "Y");
    var _ := registry.AddConnectedDevice(Some(a));
    assert registry.devices == map["A" := a];
    assert LocalIds(registry.order, registry.devices, "X") == ["A"];
    var _ := registry.AddConnectedDevice(Some(b));
    assert registry.order == ["A", "B"] && registry.devices == map["A" := a, "B" := b];
    assert LocalIds(registry.order, registry.devices, "X") == ["A", "B"];
    assert LocalIds(["B"], registry.devices, "X") == ["B"];
    before := registry.RequestLocalDevices("B");
    var _ := registry.AddConnectedDevice(Some(a'));
    assert registry.devices["B"] == b;
    assert LocalIds(registry.order, registry.devices, "X") == ["B"];
    after := registry.RequestLocalDevices("B");
  }

  /** An absent payload makes the handler throw before it changes the
      registry: the state at the throw still holds A's record, as it was. */
  method MissingPayload() returns (threw: bool, order: seq<string>, devices: map<string, Device>)
    ensures threw
    ensures order == ["A"] && devices == map["A" := Device("A", "laptop", "X")]
  {
    var registry := new Registry();
    var _ := registry.AddConnectedDevice(Some(Device("A", "laptop", "X")));
    threw := registry.AddConnectedDevice(None);
    order, devices := registry.order, registry.devices;
  }

  /** A re-registered id joins its new address's reply at its original `Map`
      position, ahead of devices that registered after it first did. */
  method OverwriteKeepsPosition() returns (reply: Option<seq<string>>)
    ensures reply == Some(["A", "B"])
  {
    var registry := new Registry();
    var a, b, a' := Device("A", "laptop", "X"), Device("B", "phone", "Y"), Device("A", "laptop", "Y");
    var _ := registry.AddConnectedDevice(Some(a));
    var _ := registry.AddConnectedDevice(Some(b));
    assert registry.order == ["A", "B"] && registry.devices == map["A" := a, "B" := b];
    assert LocalIds([], registry.devices, "Y") == [];
    assert LocalIds(["B"], registry.devices, "Y") == ["B"];
    var _ := registry.AddConnectedDevice(Some(a'));
    assert registry.devices["B"] == b;
    assert LocalIds(registry.order, registry.devices, "Y") == ["A", "B"];
    reply := registry.RequestLocalDevices("B");
  }
}
