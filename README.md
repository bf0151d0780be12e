# FileFlow-Backend connected-device registry

A model of the signaling server's device registry: the process-wide
`connectedDevices` map from socket id to device record, and the three socket
event handlers that read and change it.

- `addConnectedDevice` stores the payload under its own `socketId` when `socketId`, `deviceName` and `publicIPAdress` are all non-empty. It throws when the payload itself is absent or `null`.
- `requestLocalDevices` answers the asking connection with the socket ids of every device on its public address.
- `disconnect` removes the leaving device and addresses a `localDisconnect` event to the ids of its same-address peers.

Each handler runs to completion before the next event is handled, so each one is a single method.

Layout:

- `Wrappers.dfy`: the `Option` type. As a reply, `None` means the handler returned without emitting anything. As a payload, `None` means no payload (`undefined` or `null`).
- `Devices.dfy`: the `Device` record and the registration guard. It also holds the pure computations the handlers use:
  - the key order a JavaScript `Map` keeps under `set` and `delete` (`Placed`, `Remove`);
  - the filter-then-map from records to the socket ids on one address (`LocalIds`);
  - the lemmas about these.
- `Signaling.dfy`: the `Registry` class.
  - `order` holds the keys in `Map` insertion order and `devices` holds the records.
  - `Valid()` is the registry invariant: each key is listed once, and each record is stored under its own `socketId`.
  - There is one method per socket handler. Each returns what the handler emits, or for `addConnectedDevice`, whether it threw.
- `Scenarios.dfy`: complete sessions run on a fresh registry, each with its outcome proved.

Points of the code's behaviour worth knowing:

- The registration key is the `socketId` the client sends in the payload, while queries and disconnects look up the connection's own id. So any client can register under any id, and a connection that registers under another id stays unknown under its own (`Scenarios.PayloadKeyedRegistration`).
- An invalid registration is dropped with no error reply.
- A registration notifies no one.
- The local-devices reply carries socket ids, not records.
- A query from an unregistered connection gets no reply at all.
- The ids `localDisconnect` is addressed to include the leaving device's own id.
- Registration checks only `socketId`, `deviceName` and `publicIPAdress`, and the model's `Device` carries only those three fields.

## Model

| member | source | states |
|---|---|---|
| `Devices.Placed` | src/index.ts:33 | `Map.set` key order: the keys after the call are the old keys plus the new one, the old keys keep their positions, and no key appears twice |
| `Devices.IsValidRegistration` | src/index.ts:32 | the registration guard: `socketId`, `deviceName` and `publicIPAdress` are all non-empty |
| `Signaling.Registry.Valid` | src/index.ts:20 | the registry invariant every handler keeps: each key is listed once in `Map` order, and each record is stored under its own `socketId` |
| `Devices.Remove` | src/index.ts:59 | `Map.delete` key order: exactly the deleted key leaves |
| `Devices.RemoveAt` | src/index.ts:59 | deleting the key at position `i` of a duplicate-free key order leaves the keys before and after it, in their order |
| `Devices.RemoveDistinct` | src/index.ts:59 | deleting from a duplicate-free key list keeps it duplicate-free; it removes one entry when the key is present and changes nothing when it is absent |
| `Devices.LocalIds` | src/index.ts:43-44 | the filter-then-map over the records yields at most one id per record |
| `Devices.LocalIdsMembership` | src/index.ts:43-44 | when every record is stored under its own socket id, an id is in the result exactly when it is a key whose record has the queried public address (both directions) |
| `Devices.LocalIdsDistinct` | src/index.ts:43-44 | the reply never names a device twice |
| `Devices.LocalIdsAfterRemove` | src/index.ts:56-59 | after deleting key `k`, every address's reply is the earlier reply with `k` removed, in the same order, and the invariant still holds for the remaining keys |
| `Devices.LocalIdsAfterAppend` | src/index.ts:33-44 | registering a new key adds its id at the end of its own address's reply and changes no other reply |
| `Devices.LocalIdsAfterOverwrite` | src/index.ts:33-44 | overwriting the record of a key at position `i` puts the new record's id into its address's reply at that same position, and leaves the reply before and after that position unchanged |
| `Devices.LocalIdsUnaffected` | src/index.ts:33-44 | overwriting a record leaves the reply unchanged for any address other than the old and new record's |
| `Signaling.Registry.constructor` | src/index.ts:20 | the registry starts empty and satisfies its invariant |
| `Signaling.Registry.AddConnectedDevice` | src/index.ts:31-35 | a payload missing any field leaves the registry unchanged. Otherwise the payload is stored under its `socketId`, wholesale replacing any earlier record, with all other keys untouched and a new key placed last. A new key's id is appended to its own address's reply only. An overwritten key's id takes its old position in its new address's reply, and replies for third addresses do not change. An absent or `null` payload throws and leaves the registry unchanged. The invariant is kept |
| `Signaling.Registry.RequestLocalDevices` | src/index.ts:38-48 | the reply is none exactly when the connection id is not a key. Otherwise it lists exactly the ids of the records sharing the requester's public address, in key order, without duplicates, and including the requester. The registry is not modified |
| `Signaling.Registry.Disconnect` | src/index.ts:52-62 | an unknown connection id changes nothing and notifies no one. Otherwise only that key is removed, and the ids addressed are the same-address ids from before the deletion, the leaving id among them. Every later reply is the earlier one minus that id. The invariant is kept |
| `Scenarios.LocalDiscoverySession` | src/index.ts:31-62 | A and B register on one address. B's query gives [A, B], A's disconnect is addressed to [A, B], and B's next query gives [B] |
| `Scenarios.OtherAddressExcluded` | src/index.ts:38-48 | a device on another public address is not in the reply |
| `Scenarios.IncompleteRegistration` | src/index.ts:31-35 | a payload without a device name registers nothing, so both the query and the disconnect emit nothing |
| `Scenarios.PayloadKeyedRegistration` | src/index.ts:31-62 | a connection that registers under another socket id stays unknown under its own id, and its disconnect leaves that other record in place |
| `Scenarios.MissingPayload` | src/index.ts:31-35 | a registration with no payload throws before changing the registry: at the throw, the key order and records are exactly those of the earlier registration. The run stops there |
| `Scenarios.OverwriteKeepsPosition` | src/index.ts:31-47 | A registers on X and B on Y, then A re-registers on Y. B's reply is [A, B], because A keeps its first position in the `Map` order |
| `Scenarios.ReRegistration` | src/index.ts:31-47 | re-registering an id with a new address moves it out of the old address's reply |

## Left out

- The Express app, the `GET /` route, `cors`, `dotenv`, the port and `server.listen` (src/index.ts:1-5, 7-19, 21-26, 65-67). These are HTTP and process plumbing with no registry logic.
- The socket.io transport (`new Server`, `socket.emit`, `ws.to(...).emit`). What a handler emits is modelled as the method's return value. The `connection` event that installs the handlers becomes the `connId` argument of each method.
- Signaling.Registry.AddConnectedDevice: when the payload is absent or `null`, the model stops at the exception the handler throws and returns `threw`. What happens next is left out: Node's default for an uncaught exception ends the process and loses the whole registry.
- Delivery of `localDisconnect`. The model gives the ids the event is addressed to. Which sockets actually receive it is transport behaviour: the closing socket has already left its rooms when `disconnect` fires.
- Concurrency. The event loop runs each handler to completion, so each handler is one atomic method.
- `src/types/ITransferRequest.ts`. It is a type declaration that the core does not use, so it is not modelled.
- `src/types/IConnectedDevice.ts` is not part of this model. The record's three fields are the ones the handlers read.
- Non-string payload fields. A field that is absent or an empty string is represented as `""`, because the registration guard treats both alike. Other falsy JavaScript values (`null`, `0`, `false`) are not modelled. Neither are truthy non-strings, which behave differently: a numeric `socketId` is stored under a number key that the string `socket.id` lookups at lines 39 and 53 never find, and an object `publicIPAdress` is `===` only to itself at lines 43 and 56.
- Signaling.Registry.Disconnect: "absent from every later reply" is stated only for the state right after the disconnect. A later registration may reuse the same id, because the key comes from the payload.
