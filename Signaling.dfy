/**
 * The process-wide connected-device map and the three socket event handlers
 * that read and change it. Each handler runs to completion before the next
 * event is taken, so each is one method on the registry. What a handler emits
 * is its return value: `None` when it returns without emitting.
 */
module Signaling {
  import opened Wrappers
  import opened Devices

  class Registry {
    /** The keys of `devices` in the insertion order a JavaScript `Map` keeps. */
    var order: seq<string>
    var devices: map<string, Device>

    ghost predicate Valid()
      reads this
    {
      WellFormed(order, devices)
    }

    constructor ()
      ensures Valid() && order == [] && devices == map[]
    {
      order := [];
      devices := map[];
    }

    /** `addConnectedDevice`: `None` is an absent or `null` payload, on which
        reading `socketId` throws, so the handler stops with the registry as it
        was (`threw`). A payload missing any field is dropped without a reply;
        otherwise it is stored, whole, under its own `socketId`, replacing any
        earlier record for that key. Nothing is emitted. */
    method AddConnectedDevice(data: Option<Device>) returns (threw: bool)
      requires Valid()
      modifies this
      ensures Valid()
      ensures threw <==> data.None?
      ensures data.None? || !IsValidRegistration(data.value) ==> order == old(order) && devices == old(devices)
      ensures data.Some? && IsValidRegistration(data.value) ==>
        && devices == old(devices)[data.value.socketId := data.value]
        && order == Placed(old(order), data.value.socketId)
      ensures data.Some? && IsValidRegistration(data.value) && data.value.socketId !in old(devices) ==>
        forall addr :: LocalIds(order, devices, addr)
          == LocalIds(old(order), old(devices), addr)
           + (if data.value.publicIPAdress == addr then [data.value.socketId] else [])
      ensures data.Some? && IsValidRegistration(data.value) && data.value.socketId in old(devices) ==>
        forall addr :: addr != old(devices)[data.value.socketId].publicIPAdress && addr != data.value.publicIPAdress ==>
          LocalIds(order, devices, addr) == LocalIds(old(order), old(devices), addr)
      ensures data.Some? && IsValidRegistration(data.value) && data.value.socketId in old(devices) ==>
        var i := IndexOf(old(order), data.value.socketId);
        forall addr :: LocalIds(order, devices, addr)
          == LocalIds(old(order)[..i], old(devices), addr)
           + (if data.value.publicIPAdress == addr then [data.value.socketId] else [])
           + LocalIds(old(order)[i + 1..], old(devices), addr)
    {
      if data.None? {
        return true;
      }
      threw := false;
      var d := data.value;
      if !IsValidRegistration(d) {
        return;
      }
      ghost var order0, devices0 := order, devices;
      devices := devices[d.socketId := d];
      order := Placed(order, d.socketId);
      if d.socketId !in devices0 {
        forall addr ensures LocalIds(order, devices, addr)
            == LocalIds(order0, devices0, addr) + (if d.publicIPAdress == addr then [d.socketId] else []) {
          LocalIdsAfterAppend(order0, devices0, devices, d.socketId, addr);
        }
      } else {
        forall addr | addr != devices0[d.socketId].publicIPAdress && addr != d.publicIPAdress
          ensures LocalIds(order, devices, addr) == LocalIds(order0, devices0, addr) {
          LocalIdsUnaffected(order0, devices0, d.socketId, d, addr);
        }
        var i := IndexOf(order0, d.socketId);
        forall addr
          ensures LocalIds(order, devices, addr)
            == LocalIds(order0[..i], devices0, addr)
             + (if d.publicIPAdress == addr then [d.socketId] else [])
             + LocalIds(order0[i + 1..], devices0, addr) {
          LocalIdsAfterOverwrite(order0, devices0, d.socketId, d, addr, i);
        }
      }
    }

    /** `requestLocalDevices` from connection `connId`: no reply unless `connId`
        is a key; otherwise the socket ids of every record sharing the
        requester's public address, the requester included, each once. */
    method RequestLocalDevices(connId: string) returns (reply: Option<seq<string>>)
      requires Valid()
      ensures reply.None? <==> connId !in devices
      ensures reply.Some? ==>
        && reply.value == LocalIds(order, devices, devices[connId].publicIPAdress)
        && connId in reply.value
        && Distinct(reply.value)
        && (forall x :: x in reply.value <==> x in devices && devices[x].publicIPAdress == devices[connId].publicIPAdress)
    {
      if connId !in devices {
        return None;
      }
      var requestingDevice := devices[connId];
      var socketIds := LocalIds(order, devices, requestingDevice.publicIPAdress);
      LocalIdsMembership(order, devices, requestingDevice.publicIPAdress);
      LocalIdsDistinct(order, devices, requestingDevice.publicIPAdress);
      reply := Some(socketIds);
    }

    /** `disconnect` of connection `connId`: nothing happens unless `connId` is a
        key; otherwise the peers sharing its public address are listed first
        (so the leaving device's id is among them), then its entry is deleted,
        and the list is returned as the ids `localDisconnect` is addressed to. Every
        later reply is the earlier one with `connId` taken out. */
    method Disconnect(connId: string) returns (notify: Option<seq<string>>)
      requires Valid()
      modifies this
      ensures Valid()
      ensures connId !in old(devices) ==> notify == None && order == old(order) && devices == old(devices)
      ensures connId in old(devices) ==>
        && notify == Some(LocalIds(old(order), old(devices), old(devices)[connId].publicIPAdress))
        && devices == old(devices) - {connId}
        && order == Remove(old(order), connId)
      ensures notify.Some? ==>
        && connId in notify.value
        && Distinct(notify.value)
        && (forall x :: x in notify.value <==>
              x in old(devices) && old(devices)[x].publicIPAdress == old(devices)[connId].publicIPAdress)
      ensures connId !in devices
      ensures forall addr :: LocalIds(order, devices, addr) == Remove(LocalIds(old(order), old(devices), addr), connId)
    {
      if connId !in devices {
        forall addr ensures LocalIds(order, devices, addr) == Remove(LocalIds(order, devices, addr), connId) {
          LocalIdsMembership(order, devices, addr);
          LocalIdsDistinct(order, devices, addr);
          RemoveDistinct(LocalIds(order, devices, addr), connId);
        }
        return None;
      }
      var disconnectedDevice := devices[connId];
      var socketIds := LocalIds(order, devices, disconnectedDevice.publicIPAdress);
      LocalIdsMembership(order, devices, disconnectedDevice.publicIPAdress);
      LocalIdsDistinct(order, devices, disconnectedDevice.publicIPAdress);
      ghost var order0, devices0 := order, devices;
      forall addr ensures LocalIds(Remove(order0, connId), devices0 - {connId}, addr)
                       == Remove(LocalIds(order0, devices0, addr), connId) {
        LocalIdsAfterRemove(order0, devices0, addr, connId);
      }
      RemoveDistinct(order, disconnectedDevice.socketId);
      devices := devices - {disconnectedDevice.socketId};
      order := Remove(order, disconnectedDevice.socketId);
      notify := Some(socketIds);
    }
  }
}
