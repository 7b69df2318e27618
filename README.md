# Vanilla: window-enchant codec, fire damage, melon drops

A Dafny model of three pieces of the Vanilla game server (a Minecraft server
on the Spout platform):

- **`WindowEnchantItemCodec`** — the protocol codec for the window-enchant-item
  message, registered at opcode `0x6C`. Its payload is two bytes: the
  transaction id, then the enchantment id. `encode` writes the low 8 bits of each
  field (Netty `writeByte`); `decode` reads two bytes and sign-extends each
  (Netty `readByte`). Modelled as functions over byte sequences in
  `window_enchant_item_codec.dfy`, on the Java primitives of `java_types.dfy`.
  `Decode` returns the message plus the unread suffix, or `Truncated`.
- **`FireDamageComponent`** — an entity's burning state (`fireTicks`,
  `isFlammable`). Each scheduled `run` decrements the counter by 4 (non-flammable)
  or 1 (flammable), clamped at 0. A flammable entity takes 1 point of
  fire-contact damage whenever the counter is a multiple of 20. `shouldRun`
  holds while the counter is positive. Modelled in `fire_damage_component.dfy`
  as a class whose methods update the fields in place. They are specified by
  the functions `NextFireTicks` and `TickDamage`, and lemmas state what a whole
  burning session does: how many runs it takes, how much damage it deals, and
  that the fire goes out.
- **`MelonBlock.getDrops`** — what a broken melon drops, in `melon_block.dfy`.
  A non-entity source drops nothing. An entity holding a Silk Touch mining tool
  gets the melon block. Anyone else would get `nextInt(3 - 7 + 1) + 3` slices,
  but that bound is -3, so `nextInt` throws and the call fails (see "## Findings").

`wrappers.dfy` holds the `Option`/`Result` types.

## Model

| member | source | states |
|---|---|---|
| `JavaTypes.LowByte` | src/main/java/org/spout/vanilla/protocol/codec/window/WindowEnchantItemCodec.java:53-54 | the octet `writeByte` stores is congruent to the written int modulo 256 |
| `JavaTypes.SignExtend` | src/main/java/org/spout/vanilla/protocol/codec/window/WindowEnchantItemCodec.java:45-46 | `readByte` yields a value in -128..127 whose low octet is the octet read |
| `JavaTypes.SignExtendLowByte` | src/main/java/org/spout/vanilla/protocol/codec/window/WindowEnchantItemCodec.java:45-46 | writing then reading a byte is the identity on -128..127 |
| `JavaTypes.LowByteEqual` | src/main/java/org/spout/vanilla/protocol/codec/window/WindowEnchantItemCodec.java:53-54 | two ints are written as the same octet iff they agree modulo 256 |
| `WindowEnchantItemCodec.CodecBinding` | src/main/java/org/spout/vanilla/protocol/codec/window/WindowEnchantItemCodec.java:39-41 | the codec is bound to the window-enchant-item message type at the one-byte opcode 0x6C |
| `WindowEnchantItemCodec.ReadByte` | src/main/java/org/spout/vanilla/protocol/codec/window/WindowEnchantItemCodec.java:45 | one read succeeds iff a byte remains; it consumes exactly that byte and yields it sign-extended |
| `WindowEnchantItemCodec.WriteByte` | src/main/java/org/spout/vanilla/protocol/codec/window/WindowEnchantItemCodec.java:53 | one write keeps the buffer and appends one octet congruent to the value modulo 256 |
| `WindowEnchantItemCodec.Decode` | src/main/java/org/spout/vanilla/protocol/codec/window/WindowEnchantItemCodec.java:44-48 | decoding succeeds iff at least two bytes are present, fails with `Truncated` otherwise; the transaction comes from byte 0, the enchantment from byte 1, both in -128..127; everything after byte 1 is left unread |
| `WindowEnchantItemCodec.Encode` | src/main/java/org/spout/vanilla/protocol/codec/window/WindowEnchantItemCodec.java:51-56 | exactly two bytes: byte 0 is the transaction's low octet, byte 1 the enchantment's |
| `WindowEnchantItemCodec.RoundTrip` | src/main/java/org/spout/vanilla/protocol/codec/window/WindowEnchantItemCodec.java:44-56 | a message whose fields fit a signed byte decodes back from its encoding, and any trailing bytes come back unread |
| `WindowEnchantItemCodec.RoundTripIff` | src/main/java/org/spout/vanilla/protocol/codec/window/WindowEnchantItemCodec.java:44-56 | decoding an encoding always succeeds, and gives the original message iff both fields lie in -128..127 |
| `WindowEnchantItemCodec.OutOfRangeExample` | src/main/java/org/spout/vanilla/protocol/codec/window/WindowEnchantItemCodec.java:45-46 | a transaction of 200 is written as 0xC8 and read back as -56 |
| `WindowEnchantItemCodec.DecodeThenEncode` | src/main/java/org/spout/vanilla/protocol/codec/window/WindowEnchantItemCodec.java:44-56 | re-encoding a decoded message reproduces exactly the two bytes consumed |
| `WindowEnchantItemCodec.PrefixTruncated` | src/main/java/org/spout/vanilla/protocol/codec/window/WindowEnchantItemCodec.java:45-46 | every strict prefix of an encoding fails with `Truncated` and yields no message |
| `WindowEnchantItemCodec.EncodeEqualIff` | src/main/java/org/spout/vanilla/protocol/codec/window/WindowEnchantItemCodec.java:51-56 | the encoding depends only on the two fields: two messages encode alike iff their fields agree modulo 256 |
| `WindowEnchantItemCodec.ScenarioFiveTwo` | src/main/java/org/spout/vanilla/protocol/codec/window/WindowEnchantItemCodec.java:44-56 | transaction 5, enchantment 2 encodes to [0x05, 0x02], which decodes back to (5, 2); [0x05] alone is truncated |
| `FireDamage.NextFireTicks` | src/main/java/org/spout/vanilla/controller/component/basic/FireDamageComponent.java:99-114 | one run leaves a non-negative counter, strictly smaller when it was positive: the old value less the burn rate, or 0 where that would go negative |
| `FireDamage.TickDamage` | src/main/java/org/spout/vanilla/controller/component/basic/FireDamageComponent.java:99-109 | one run deals at most one damage event, of 1 fire-contact point, and deals it iff the entity is flammable and the counter is a multiple of 20 |
| `FireDamage.TicksAfterRuns` | src/main/java/org/spout/vanilla/controller/component/basic/FireDamageComponent.java:98-115 | from a counter n >= 0, k runs leave max(n - k * rate, 0), where the rate is 1 or 4 |
| `FireDamage.BurnsOutWithin` | src/main/java/org/spout/vanilla/controller/component/basic/FireDamageComponent.java:98-120 | from n >= 0 the counter is 0 after any n or more runs |
| `FireDamage.RunsUntilOutCount` | src/main/java/org/spout/vanilla/controller/component/basic/FireDamageComponent.java:98-120 | run while `shouldRun` holds, a flammable entity at n > 0 runs exactly n times, a non-flammable one ceil(n / 4) times |
| `FireDamage.DamageUntilOutCount` | src/main/java/org/spout/vanilla/controller/component/basic/FireDamageComponent.java:98-120 | run while `shouldRun` holds, a flammable entity at n > 0 takes n / 20 damage events; a non-flammable one takes none |
| `FireDamage.FireDamageComponent.constructor` | src/main/java/org/spout/vanilla/controller/component/basic/FireDamageComponent.java:38-43 | a fresh component has `fireTicks == 0` and is flammable |
| `FireDamage.FireDamageComponent.OnRegistration` | src/main/java/org/spout/vanilla/controller/component/basic/FireDamageComponent.java:46-49 | both fields are loaded from the parent's data map |
| `FireDamage.FireDamageComponent.OnUnregistration` | src/main/java/org/spout/vanilla/controller/component/basic/FireDamageComponent.java:52-55 | both fields are stored in the parent's data map; nothing else of the parent changes |
| `FireDamage.FireDamageComponent.IsFlammable` | src/main/java/org/spout/vanilla/controller/component/basic/FireDamageComponent.java:62-64 | returns the flag |
| `FireDamage.FireDamageComponent.SetFlammable` | src/main/java/org/spout/vanilla/controller/component/basic/FireDamageComponent.java:71-73 | sets the flag and changes nothing else |
| `FireDamage.FireDamageComponent.GetFireTicks` | src/main/java/org/spout/vanilla/controller/component/basic/FireDamageComponent.java:80-82 | returns the counter |
| `FireDamage.FireDamageComponent.SetFireTicks` | src/main/java/org/spout/vanilla/controller/component/basic/FireDamageComponent.java:89-95 | a positive duration is replaced by the combust listener's answer; zero or negative ones are stored unchanged; only the counter changes |
| `FireDamage.FireDamageComponent.Run` | src/main/java/org/spout/vanilla/controller/component/basic/FireDamageComponent.java:98-115 | the counter becomes `NextFireTicks` of its old value, the parent's damage log grows by exactly `TickDamage`, and the flag is unchanged |
| `FireDamage.FireDamageComponent.ShouldRun` | src/main/java/org/spout/vanilla/controller/component/basic/FireDamageComponent.java:118-120 | true iff the counter is positive, whatever `dt` is |
| `FireDamage.FreshComponentIdle` | src/main/java/org/spout/vanilla/controller/component/basic/FireDamageComponent.java:38-39 | a freshly built component's `shouldRun` is false |
| `FireDamage.BurnOut` | src/main/java/org/spout/vanilla/controller/component/basic/FireDamageComponent.java:98-120 | running the component while `shouldRun` holds performs exactly `RunsUntilOut` of the starting counter runs, takes a positive counter to 0 and leaves a zero or negative one as it is; the old damage log is kept as a prefix and exactly `DamageUntilOut` of the starting counter entries are appended, each one point of fire-contact damage |
| `FireDamage.Reregister` | src/main/java/org/spout/vanilla/controller/component/basic/FireDamageComponent.java:46-55 | unregistering then registering again restores both fields, leaves the parent's data map holding them, and leaves the damage log alone |
| `Melon.NextInt` | src/main/java/org/spout/vanilla/material/block/ore/MelonBlock.java:60 | `Random.nextInt(bound)` fails iff the bound is not positive, otherwise yields a value in 0..bound-1 |
| `Melon.GetDrops` | src/main/java/org/spout/vanilla/material/block/ore/MelonBlock.java:53-64 | no drops for a non-entity source; never more than one stack; a Silk Touch mining tool gives exactly one melon block; every other entity case fails with the bound -3 |
| `Melon.SlicesNeverDropped` | src/main/java/org/spout/vanilla/material/block/ore/MelonBlock.java:57-60 | as written, no input yields a melon slice, and the call fails exactly in the slice branch |
| `Melon.BareHandsThrow` | src/main/java/org/spout/vanilla/material/block/ore/MelonBlock.java:56-60 | an entity holding nothing makes `getDrops` fail |
| `Melon.GetDropsIntended` | src/main/java/org/spout/vanilla/material/block/ore/MelonBlock.java:53-64 | with the corrected bound the call never fails, and the slice branch drops one stack of 3 to 7 slices |
| `Melon.IntendedCountsReachable` | src/main/java/org/spout/vanilla/material/block/ore/MelonBlock.java:60 | with the corrected bound every slice count from 3 to 7 is produced by some draw |

## Left out

- The `MessageCodec` base class, the codec registry and the frame dispatcher. They live in the external Spout API, which is not part of this model. Only the codec's binding (message type, opcode 0x6C) is modelled.
- Netty `ByteBuf` internals, reader and writer indices, and the `IOException` signatures. A buffer is a sequence of octets. A failed read is `Truncated`; whether a short read advances the reader index is not modelled.
- The Spout event manager and `EntityCombustEvent`. The combust listener is a parameter of `SetFireTicks`, a function from the requested duration to the stored one; cancellation of the event is ignored by the source and by the model.
- The parent's health component. `getHealth().damage(1, FIRE_CONTACT)` appends to a damage log on the parent.
- The parent's data map. Only its `FIRE_TICKS` and `FLAMMABLE` entries are modelled, as two fields of the parent; other keys and the map's default values are not part of this model.
- `LogicRunnable` scheduling, `LogicPriority` and the float `dt`. The scheduler that runs the component while `shouldRun` holds is described by the functions `RunsUntilOut` and `DamageUntilOut`, and the method `BurnOut` ties them to `Run` and `ShouldRun`; `dt` is a `real` parameter that is ignored.
- FireDamage.FireDamageComponent.Run: requires that the decrement does not wrap below the smallest 32-bit int, so the wrap-around the Java code would perform at a counter within 4 of `Integer.MIN_VALUE` is not modelled.
- `MelonBlock.initialize` (float hardness and resistance) and the entity, inventory and material lookups. The source is an abstract `BlockSource` that holds the kind of the held item and a Silk Touch flag.
- `java.util.Random`: an oracle `draw` reduced below the bound; only its range is relied on.

## Findings

| source | as written | input that shows it | evidently intended | confidence | as-written member | corrected member |
|---|---|---|---|---|---|---|
| src/main/java/org/spout/vanilla/material/block/ore/MelonBlock.java:60 | the slice count is `nextInt(3 - 7 + 1) + 3`, and the bound -3 makes `nextInt` throw | any entity without a Silk Touch mining tool, e.g. bare hands (`BareHandsThrow`) | `nextInt(7 - 3 + 1) + 3`, so 3 to 7 slices | high, not executed | `Melon.SlicesNeverDropped` | `Melon.GetDropsIntended` |
