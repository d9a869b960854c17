/** Wire-level value types shared by every part of the netcode:
    fixed-width integers, inputs, command and state frames, spawn records. */
module Models {

  type u8 = x: int | 0 <= x < 0x100
  type u16 = x: int | 0 <= x < 0x1_0000
  type u32 = x: int | 0 <= x < 0x1_0000_0000
  type u128 = x: int | 0 <= x < 0x1_0000_0000_0000_0000_0000_0000_0000_0000
  type byte = u8

  const U32_MAX: int := 0xFFFF_FFFF

  datatype Option<T> = None | Some(value: T)

  /** The engine's entity handle; only its numeric id is observed by the netcode. */
  datatype Entity = Entity(id: u32)

  /** One frame's sampled player intents (all false and frame 0 by default). */
  datatype InputCommand = InputCommand(frame: u32, forward: bool, backward: bool, left: bool, right: bool, jump: bool)

  const DefaultInputCommand: InputCommand := InputCommand(0, false, false, false, false, false)

  /** The payload of a command frame: a sampled input command, or nothing (the default). */
  datatype SynchronizedInput = Input(command: InputCommand) | NoInput

  /** An input tagged with the frame it applies to and the entity that owns it. */
  datatype CommandFrame = CommandFrame(frame: u32, entityId: u32, input: SynchronizedInput)

  /** The same triple, as queued in a `Synchronizable` component. */
  datatype InputFrame = InputFrame(frame: u32, entityId: u32, input: SynchronizedInput)

  /** A serialized snapshot of one component of one entity at one frame. */
  datatype StateFrame = StateFrame(frame: u32, entityId: u32, componentTypeId: u8, state: seq<byte>)

  /** Announces that an entity exists on the authoritative side. */
  datatype EntitySpawn = EntitySpawn(entityId: u32)

  /** A network address: the transport's own type, observed only through equality. */
  datatype SocketAddr = SocketAddr(ip: seq<byte>, port: u16)

  /** A transport connection to one peer. */
  datatype Connection = Connection(addr: SocketAddr)

  /** A connected player or device, known by its id. */
  datatype Client = Client(id: u128)
  {
    /** Every client counts as authenticated. */
    predicate IsAuthenticated()
    {
      true
    }
  }

  /** A sequence without repeats that lists exactly the elements of a set is as long as
      the set is large. */
  lemma {:induction false} DistinctCardinality<T>(s: seq<T>, keys: set<T>)
    requires forall i :: 0 <= i < |s| ==> s[i] in keys
    requires forall i, j :: 0 <= i < j < |s| ==> s[i] != s[j]
    requires forall k :: k in keys ==> k in s
    ensures |s| == |keys|
    decreases |s|
  {
    if |s| > 0 {
      var last := s[|s| - 1];
      var init := s[..|s| - 1];
      assert forall k :: k in keys - {last} ==> k in init by {
        forall k | k in keys - {last} ensures k in init {
          var i :| 0 <= i < |s| && s[i] == k;
          assert i < |s| - 1;
          assert init[i] == k;
        }
      }
      DistinctCardinality(init, keys - {last});
    } else {
      assert keys == {};
    }
  }
}
