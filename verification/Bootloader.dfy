/**
 Flashing a bootloader container: components one after the other, each with a
 magic, a size and a flash flag, flashed group by group in a fixed order.
 */
module Bootloader {
  import opened Options
  import opened Bytes

  const HEADER := 16
  const COMPONENT_HEADER := 16
  const EPERM := 1

  const BOOTLOADER_MAGIC: seq<byte> := [66, 79, 79, 84, 76, 68, 82, 33]  // "BOOTLDR!"

  /** The groups in flashing order: droidboot, ifwi, splash screen, capsule, esp. */
  const MAGICS: seq<seq<byte>> := [
    [68, 82, 79, 73, 68, 66, 84, 33],  // "DROIDBT!"
    [73, 70, 87, 73, 33, 33, 33, 33],  // "IFWI!!!!"
    [83, 80, 76, 65, 83, 72, 83, 33],  // "SPLASHS!"
    [67, 65, 80, 83, 85, 76, 69, 33],  // "CAPSULE!"
    [69, 83, 80, 33, 33, 33, 33, 33]]  // "ESP!!!!!"

  const NAMES: seq<string> := ["fastboot", "ifwi", "splashscreen", "capsule", "esp_update"]

  datatype Component = Component(magic: seq<byte>, flash: bool, body: seq<byte>)

  /** One call of the flasher: under which name, which data. */
  datatype Call = Call(name: string, body: seq<byte>)

  // ---------------------------------------------------------------- the container

  function SizeAt(data: seq<byte>, at: nat): nat
    requires at + COMPONENT_HEADER <= |data|
  {
    Get32(data, at + 8)
  }

  /** From `at` on the data consist of whole components. */
  predicate Tiles(data: seq<byte>, at: nat)
    decreases |data| - at
  {
    at == |data| ||
    (at + COMPONENT_HEADER <= |data| && at + COMPONENT_HEADER + SizeAt(data, at) <= |data|
     && Tiles(data, at + COMPONENT_HEADER + SizeAt(data, at)))
  }

  function After(data: seq<byte>, at: nat): nat
    requires at + COMPONENT_HEADER <= |data|
  {
    at + COMPONENT_HEADER + SizeAt(data, at)
  }

  function ComponentAt(data: seq<byte>, at: nat): Component
    requires at < |data| && Tiles(data, at)
  {
    Component(data[at..at + 8], data[at + 12] % 2 == 1, data[at + COMPONENT_HEADER..After(data, at)])
  }

  /** The components from `at` on, in file order. */
  function Components(data: seq<byte>, at: nat): seq<Component>
    requires Tiles(data, at)
    decreases |data| - at
  {
    if at == |data| then [] else [ComponentAt(data, at)] + Components(data, After(data, at))
  }

  function Flagged(cs: seq<Component>, magic: seq<byte>): seq<Component> {
    if |cs| == 0 then []
    else if cs[0].flash && cs[0].magic == magic then [cs[0]] + Flagged(cs[1..], magic)
    else Flagged(cs[1..], magic)
  }

  predicate Nonempty(data: seq<byte>) { |data| > HEADER && Tiles(data, HEADER) }

  // ---------------------------------------------------------------- building a container

  /** A component as it is packed: the flags carry the flash bit and others. */
  datatype Part = Part(component: Component, flags: byte, reserved: seq<byte>)

  /** The flash bit is bit 0 of the flags. */
  predicate Packable(part: Part) {
    && |part.component.magic| == 8 && |part.component.body| < 0x1_0000_0000 && |part.reserved| == 3
    && (part.component.flash <==> part.flags % 2 == 1)
  }

  /** Eight bytes of magic, the size of the body, the flags, three more bytes and the body. */
  function PartBytes(part: Part): (s: seq<byte>)
    requires Packable(part)
    ensures |s| == COMPONENT_HEADER + |part.component.body|
  {
    part.component.magic + Le32(|part.component.body|) + [part.flags] + part.reserved + part.component.body
  }

  function PartsBytes(parts: seq<Part>): seq<byte>
    requires forall i :: 0 <= i < |parts| ==> Packable(parts[i])
  {
    if |parts| == 0 then [] else PartBytes(parts[0]) + PartsBytes(parts[1..])
  }

  function ComponentsOf(parts: seq<Part>): (cs: seq<Component>)
    ensures |cs| == |parts|
  {
    seq(|parts|, i requires 0 <= i < |parts| => parts[i].component)
  }

  /** The data are a 16-byte head with the magic and the components one by one. */
  ghost predicate IsContainer(data: seq<byte>, cs: seq<Component>) {
    exists parts ::
      && (forall i :: 0 <= i < |parts| ==> Packable(parts[i])) && cs == ComponentsOf(parts)
      && |data| >= HEADER && data[..8] == BOOTLOADER_MAGIC && data[HEADER..] == PartsBytes(parts)
  }

  lemma PartAt(data: seq<byte>, at: nat, part: Part, rest: seq<byte>)
    requires Packable(part) && at <= |data| && data[at..] == PartBytes(part) + rest
    ensures at + COMPONENT_HEADER <= |data| && SizeAt(data, at) == |part.component.body|
    ensures After(data, at) <= |data| && data[After(data, at)..] == rest
    ensures data[at..at + 8] == part.component.magic && data[at + 12] == part.flags
    ensures data[at + COMPONENT_HEADER..After(data, at)] == part.component.body
  {
    var s, t := PartBytes(part), data[at..];
    var n := |part.component.body|;
    assert |t| == |s| + |rest|;
    assert t[8..12] == s[8..12] == Le32(n);
    SizeField(data, at, t, n);
    assert t[..8] == part.component.magic && t[12] == part.flags && t[16..16 + n] == part.component.body;
    assert data[at..at + 8] == t[..8] && data[at + 12] == t[12] && data[at + 16..at + 16 + n] == t[16..16 + n];
    assert data[at + 16 + n..] == t[16 + n..] == rest;
  }

  lemma SizeField(data: seq<byte>, at: nat, t: seq<byte>, n: u32)
    requires at + 12 <= |data| && t == data[at..] && t[8..12] == Le32(n)
    ensures Get32(data, at + 8) == n
  {
    Get32Le32(n);
    var w := t[8..12];
    assert data[at + 8] == w[0] && data[at + 9] == w[1] && data[at + 10] == w[2] && data[at + 11] == w[3];
  }

  /** Parsing inverts packing: the components come back, each with its magic,
      flash bit and body. */
  lemma {:induction false} PartsParse(data: seq<byte>, at: nat, parts: seq<Part>)
    requires (forall i :: 0 <= i < |parts| ==> Packable(parts[i])) && at <= |data|
    requires data[at..] == PartsBytes(parts)
    ensures Tiles(data, at) && Components(data, at) == ComponentsOf(parts)
    decreases |parts|
  {
    if |parts| > 0 {
      var rest := parts[1..];
      PartAt(data, at, parts[0], PartsBytes(rest));
      PartsParse(data, After(data, at), rest);
      FirstParsed(data, at, parts[0], ComponentsOf(rest));
      assert ComponentsOf(parts) == [parts[0].component] + ComponentsOf(rest);
    }
  }

  lemma FirstParsed(data: seq<byte>, at: nat, part: Part, rest: seq<Component>)
    requires Packable(part) && at + COMPONENT_HEADER <= |data| && After(data, at) <= |data|
    requires Tiles(data, After(data, at)) && Components(data, After(data, at)) == rest
    requires data[at..at + 8] == part.component.magic && data[at + 12] == part.flags
    requires data[at + COMPONENT_HEADER..After(data, at)] == part.component.body
    ensures Tiles(data, at) && Components(data, at) == [part.component] + rest
  {
    assert ComponentAt(data, at) == part.component;
  }

  lemma ContainerParses(data: seq<byte>, cs: seq<Component>)
    requires IsContainer(data, cs)
    ensures |data| >= HEADER && data[..8] == BOOTLOADER_MAGIC
    ensures Tiles(data, HEADER) && Components(data, HEADER) == cs
    ensures |cs| > 0 ==> Nonempty(data)
  {
    var parts :|
      && (forall i :: 0 <= i < |parts| ==> Packable(parts[i])) && cs == ComponentsOf(parts)
      && |data| >= HEADER && data[..8] == BOOTLOADER_MAGIC && data[HEADER..] == PartsBytes(parts);
    PartsParse(data, HEADER, parts);
  }

  // ---------------------------------------------------------------- the walk

  /** What a walk that stands at `c` (or has not started) still has ahead. */
  function Ahead(data: seq<byte>, c: Option<nat>): seq<Component>
    requires Nonempty(data) && (c.Some? ==> c.value < |data| && Tiles(data, c.value))
  {
    if c.None? then Components(data, HEADER) else Components(data, After(data, c.value))
  }

  /** `next_component`: one component further. */
  method NextComponent(data: seq<byte>, c: Option<nat>) returns (more: bool, next: nat)
    requires Nonempty(data) && (c.Some? ==> c.value < |data| && Tiles(data, c.value))
    ensures more <==> |Ahead(data, c)| > 0
    ensures more ==> next < |data| && Tiles(data, next) && (c.Some? ==> next > c.value)
                     && Ahead(data, c) == [ComponentAt(data, next)] + Ahead(data, Some(next))
  {
    if c.None? {
      return true, HEADER;
    }
    next := After(data, c.value);
    more := next < |data|;
  }

  /** `next_component_filter`: the next flagged component of the group. */
  method NextFlagged(data: seq<byte>, c: Option<nat>, magic: seq<byte>) returns (more: bool, next: nat)
    requires Nonempty(data) && (c.Some? ==> c.value < |data| && Tiles(data, c.value))
    ensures more <==> |Flagged(Ahead(data, c), magic)| > 0
    ensures more ==> next < |data| && Tiles(data, next) && (c.Some? ==> next > c.value)
                     && Flagged(Ahead(data, c), magic)
                        == [ComponentAt(data, next)] + Flagged(Ahead(data, Some(next)), magic)
  {
    var at := c;
    while true
      invariant at.Some? ==> at.value < |data| && Tiles(data, at.value)
      invariant c.Some? ==> at.Some? && at.value >= c.value
      invariant Flagged(Ahead(data, c), magic) == Flagged(Ahead(data, at), magic)
      decreases if at.None? then |data| else |data| - at.value - 1
    {
      more, next := NextComponent(data, at);
      if !more {
        return;
      }
      var k := ComponentAt(data, next);
      assert Ahead(data, at)[1..] == Ahead(data, Some(next));
      if k.magic == magic && k.flash {
        return;
      }
      at := Some(next);
    }
  }

  // ---------------------------------------------------------------- the flash calls

  function CallsFor(name: string, cs: seq<Component>): (calls: seq<Call>)
    ensures |calls| == |cs|
  {
    seq(|cs|, i requires 0 <= i < |cs| => Call(name, cs[i].body))
  }

  /** The calls of the first `n` groups: group by group, in file order within a group. */
  function GroupedCalls(cs: seq<Component>, n: nat): seq<Call>
    requires n <= |MAGICS|
  {
    if n == 0 then [] else GroupedCalls(cs, n - 1) + CallsFor(NAMES[n - 1], Flagged(cs, MAGICS[n - 1]))
  }

  predicate Hard(ret: int) { ret != 0 && ret != -EPERM }

  /** All droidboot images present are refused. */
  predicate Unsupported(cs: seq<Component>, outcome: nat -> int) {
    var n := |Flagged(cs, MAGICS[0])|;
    n > 0 && forall i: nat :: i < n ==> outcome(i) == -EPERM
  }

  /** How many calls the container asks for: all of them, or only the first
      group when that is refused altogether. */
  function Wanted(cs: seq<Component>, outcome: nat -> int): nat {
    if Unsupported(cs, outcome) then |Flagged(cs, MAGICS[0])| else |GroupedCalls(cs, |MAGICS|)|
  }

  /** The flash calls made and the value returned, with `outcome(i)` the result
      of call `i`: the wanted calls in order, cut behind the first hard error. */
  ghost predicate Flashes(cs: seq<Component>, outcome: nat -> int, calls: seq<Call>, ret: int) {
    var all, wanted := GroupedCalls(cs, |MAGICS|), Wanted(cs, outcome);
    && wanted <= |all|
    && |calls| <= wanted && calls == all[..|calls|]
    && (forall i: nat :: i + 1 < |calls| ==> !Hard(outcome(i)))
    && (|calls| < wanted ==> |calls| > 0 && Hard(outcome(|calls| - 1)))
    && ret == (if |calls| > 0 && Hard(outcome(|calls| - 1)) then outcome(|calls| - 1)
               else if Unsupported(cs, outcome) then -EPERM else 0)
  }

  lemma GroupedCallsGrow(cs: seq<Component>, n: nat)
    requires n <= |MAGICS|
    ensures |GroupedCalls(cs, n)| <= |GroupedCalls(cs, |MAGICS|)|
    ensures GroupedCalls(cs, |MAGICS|)[..|GroupedCalls(cs, n)|] == GroupedCalls(cs, n)
    decreases |MAGICS| - n
  {
    if n < |MAGICS| {
      GroupedCallsGrow(cs, n + 1);
      var a, b := GroupedCalls(cs, n), GroupedCalls(cs, n + 1);
      assert b[..|a|] == a;
      var all := GroupedCalls(cs, |MAGICS|);
      assert all[..|a|] == all[..|b|][..|a|];
    }
  }

  /** No call from `lo` up to `hi` fails hard. */
  ghost predicate Soft(outcome: nat -> int, lo: nat, hi: nat) {
    forall k: nat :: lo <= k < hi ==> !Hard(outcome(k))
  }

  ghost predicate SomeFlashed(outcome: nat -> int, lo: nat, hi: nat) {
    exists k: nat :: lo <= k < hi && outcome(k) == 0
  }

  /** One more component of a group dealt with. */
  lemma TakeNext(before: seq<Call>, name: string, done: seq<Component>, k: Component, rest: seq<Component>)
    ensures done + ([k] + rest) == done + [k] + rest
    ensures before + CallsFor(name, done) + [Call(name, k.body)] == before + CallsFor(name, done + [k])
  {
  }

  /** Some of the calls of a group, in order, and their results. */
  ghost predicate GroupDone(name: string, g: seq<Component>, outcome: nat -> int, before: seq<Call>,
                            calls: seq<Call>, hard: bool, flashed: bool)
  {
    && |before| <= |calls| <= |before| + |g|
    && calls == before + CallsFor(name, g[..|calls| - |before|])
    && (hard ==> |calls| > |before| && Hard(outcome(|calls| - 1)) && Soft(outcome, |before|, |calls| - 1))
    && (!hard ==> |calls| == |before| + |g| && Soft(outcome, |before|, |calls|)
                  && (flashed <==> SomeFlashed(outcome, |before|, |calls|)))
  }

  lemma GroupIsDone(name: string, g: seq<Component>, outcome: nat -> int, before: seq<Call>,
                    calls: seq<Call>, hard: bool, flashed: bool, done: seq<Component>, rest: seq<Component>)
    requires g == done + rest && calls == before + CallsFor(name, done)
    requires hard ==> |done| > 0 && Hard(outcome(|calls| - 1)) && Soft(outcome, |before|, |calls| - 1)
    requires !hard ==> rest == [] && Soft(outcome, |before|, |calls|)
                       && (flashed <==> SomeFlashed(outcome, |before|, |calls|))
    ensures GroupDone(name, g, outcome, before, calls, hard, flashed)
  {
    assert g[..|done|] == done;
  }

  /** Where the inner loop stands: `done` of the group has been flashed, `rest` has not. */
  ghost predicate Progress(name: string, g: seq<Component>, outcome: nat -> int, before: seq<Call>,
                           calls: seq<Call>, flashed: bool, done: seq<Component>, rest: seq<Component>)
  {
    && g == done + rest && calls == before + CallsFor(name, done)
    && Soft(outcome, |before|, |calls|)
    && (flashed <==> SomeFlashed(outcome, |before|, |calls|))
  }

  lemma ProgressStep(name: string, g: seq<Component>, outcome: nat -> int, before: seq<Call>, calls: seq<Call>,
                     flashed: bool, done: seq<Component>, k: Component, rest: seq<Component>)
    requires Progress(name, g, outcome, before, calls, flashed, done, [k] + rest)
    ensures var ret, calls' := outcome(|calls|), calls + [Call(name, k.body)];
            if Hard(ret) then GroupDone(name, g, outcome, before, calls', true, flashed)
            else Progress(name, g, outcome, before, calls', flashed || ret == 0, done + [k], rest)
  {
    var n := |calls|;
    TakeNext(before, name, done, k, rest);
    FlashedSoFar(outcome, |before|, n);
    if Hard(outcome(n)) {
      GroupIsDone(name, g, outcome, before, calls + [Call(name, k.body)], true, flashed, done + [k], rest);
    }
  }

  /** The inner loop: all flagged components of one group. */
  method FlashGroup(data: seq<byte>, name: string, magic: seq<byte>, before: seq<Call>, outcome: nat -> int)
    returns (calls: seq<Call>, hard: bool, flashed: bool)
    requires Nonempty(data)
    ensures GroupDone(name, Flagged(Components(data, HEADER), magic), outcome, before, calls, hard, flashed)
  {
    ghost var g := Flagged(Components(data, HEADER), magic);
    ghost var done, rest: seq<Component> := [], g;
    calls, hard, flashed := before, false, false;
    var c: Option<nat> := None;
    while true
      invariant c.Some? ==> c.value < |data| && Tiles(data, c.value)
      invariant rest == Flagged(Ahead(data, c), magic)
      invariant Progress(name, g, outcome, before, calls, flashed, done, rest)
      decreases |data| - (if c.None? then 0 else c.value + 1)
    {
      var more, next := NextFlagged(data, c, magic);
      if !more {
        break;
      }
      c := Some(next);
      var k := ComponentAt(data, next);
      rest := Flagged(Ahead(data, c), magic);
      ProgressStep(name, g, outcome, before, calls, flashed, done, k, rest);
      var ret := outcome(|calls|);
      calls, done := calls + [Call(name, k.body)], done + [k];
      if ret != 0 && ret != -EPERM {
        return calls, true, flashed;
      }
      flashed := flashed || ret == 0;
    }
    GroupIsDone(name, g, outcome, before, calls, false, flashed, done, []);
  }

  lemma FlashedSoFar(outcome: nat -> int, lo: nat, hi: nat)
    requires lo <= hi
    ensures SomeFlashed(outcome, lo, hi + 1) <==> SomeFlashed(outcome, lo, hi) || outcome(hi) == 0
    ensures Soft(outcome, lo, hi + 1) <==> Soft(outcome, lo, hi) && !Hard(outcome(hi))
  {
  }

  lemma GroupPrefix(cs: seq<Component>, i: nat, calls: seq<Call>)
    requires i < |MAGICS|
    requires var g, a := Flagged(cs, MAGICS[i]), GroupedCalls(cs, i);
             |a| <= |calls| <= |a| + |g| && calls == a + CallsFor(NAMES[i], g[..|calls| - |a|])
    ensures |calls| <= |GroupedCalls(cs, |MAGICS|)| && calls == GroupedCalls(cs, |MAGICS|)[..|calls|]
  {
    var all := GroupedCalls(cs, |MAGICS|);
    GroupedCallsGrow(cs, i + 1);
    PartOfGroup(Flagged(cs, MAGICS[i]), NAMES[i], GroupedCalls(cs, i), calls, all);
  }

  lemma PartOfGroup(g: seq<Component>, name: string, a: seq<Call>, calls: seq<Call>, all: seq<Call>)
    requires |a| <= |calls| <= |a| + |g| <= |all| && all[..|a| + |g|] == a + CallsFor(name, g)
    requires calls == a + CallsFor(name, g[..|calls| - |a|])
    ensures calls == all[..|calls|]
  {
    CallsForPrefix(name, g, a, |calls| - |a|);
    PrefixOfPrefix(all, a + CallsFor(name, g), |calls|);
  }

  lemma CallsForPrefix(name: string, g: seq<Component>, a: seq<Call>, m: nat)
    requires m <= |g|
    ensures a + CallsFor(name, g[..m]) == (a + CallsFor(name, g))[..|a| + m]
  {
  }

  lemma PrefixOfPrefix(all: seq<Call>, b: seq<Call>, n: nat)
    requires n <= |b| <= |all| && all[..|b|] == b
    ensures all[..n] == b[..n]
  {
    assert all[..n] == all[..|b|][..n];
  }

  /** `flash_bootloader`: refuses a container without its header; otherwise
      makes exactly the calls the container asks for. On data packed from
      components, these are the calls for those components. */
  method FlashBootloader(data: seq<byte>, outcome: nat -> int) returns (ret: int, calls: seq<Call>)
    requires |data| >= HEADER && data[..8] == BOOTLOADER_MAGIC ==> Nonempty(data)
    ensures |data| < HEADER || data[..8] != BOOTLOADER_MAGIC ==> ret == -1 && calls == []
    ensures |data| >= HEADER && data[..8] == BOOTLOADER_MAGIC ==>
              Flashes(Components(data, HEADER), outcome, calls, ret)
    ensures forall cs :: IsContainer(data, cs) ==> Flashes(cs, outcome, calls, ret)
  {
    ret, calls := FlashGroups(data, outcome);
    forall cs | IsContainer(data, cs) ensures Flashes(cs, outcome, calls, ret) {
      ContainerParses(data, cs);
    }
  }

  method FlashGroups(data: seq<byte>, outcome: nat -> int) returns (ret: int, calls: seq<Call>)
    requires |data| >= HEADER && data[..8] == BOOTLOADER_MAGIC ==> Nonempty(data)
    ensures |data| < HEADER || data[..8] != BOOTLOADER_MAGIC ==> ret == -1 && calls == []
    ensures |data| >= HEADER && data[..8] == BOOTLOADER_MAGIC ==>
              Flashes(Components(data, HEADER), outcome, calls, ret)
  {
    ret, calls := -1, [];
    if |data| < HEADER || data[..8] != BOOTLOADER_MAGIC {
      return;
    }
    ghost var cs := Components(data, HEADER);
    var i := 0;
    while i < |MAGICS|
      invariant 0 <= i <= |MAGICS|
      invariant calls == GroupedCalls(cs, i) && Soft(outcome, 0, |calls|)
      invariant i > 0 ==> !Unsupported(cs, outcome)
    {
      var hard, flashed;
      var before := calls;
      calls, hard, flashed := FlashGroup(data, NAMES[i], MAGICS[i], calls, outcome);
      GroupPrefix(cs, i, calls);
      if hard {
        ret := outcome(|calls| - 1);
        HardStop(cs, outcome, i, before, calls);
        return;
      }
      GroupComplete(cs, i, outcome, before, calls, flashed);
      if |calls| > |before| && !flashed && NAMES[i] == "fastboot" {
        ret := outcome(|calls| - 1);
        FirstName(i);
        RefusedStop(cs, outcome, calls);
        return;
      }
      if i == 0 {
        NotRefused(cs, outcome, calls);
      }
      i := i + 1;
    }
    ret := 0;
    Completed(cs, outcome, calls);
  }

  lemma FirstName(i: nat)
    requires i < |NAMES| && NAMES[i] == "fastboot"
    ensures i == 0
  {
    assert NAMES[1] == "ifwi" && NAMES[2] == "splashscreen" && NAMES[3] == "capsule" && NAMES[4] == "esp_update";
    assert "fastboot"[0] == 'f' && "ifwi"[0] == 'i' && "splashscreen"[0] == 's';
  }

  lemma GroupComplete(cs: seq<Component>, i: nat, outcome: nat -> int, before: seq<Call>, calls: seq<Call>, flashed: bool)
    requires i < |MAGICS| && before == GroupedCalls(cs, i) && Soft(outcome, 0, |before|)
    requires GroupDone(NAMES[i], Flagged(cs, MAGICS[i]), outcome, before, calls, false, flashed)
    ensures calls == GroupedCalls(cs, i + 1) && Soft(outcome, 0, |calls|)
  {
    var g := Flagged(cs, MAGICS[i]);
    assert g[..|g|] == g;
  }

  /** All droidboot images present were refused: nothing else is flashed. */
  lemma RefusedStop(cs: seq<Component>, outcome: nat -> int, calls: seq<Call>)
    requires calls == GroupedCalls(cs, 1) && |calls| > 0
    requires Soft(outcome, 0, |calls|) && !SomeFlashed(outcome, 0, |calls|)
    ensures Flashes(cs, outcome, calls, outcome(|calls| - 1))
  {
    FirstGroup(cs);
    GroupedCallsGrow(cs, 1);
    assert forall k: nat :: k < |calls| ==> !Hard(outcome(k)) && outcome(k) != 0;
  }

  lemma FirstGroup(cs: seq<Component>)
    ensures |GroupedCalls(cs, 1)| == |Flagged(cs, MAGICS[0])|
  {
    assert GroupedCalls(cs, 0) == [];
  }

  lemma NotRefused(cs: seq<Component>, outcome: nat -> int, calls: seq<Call>)
    requires calls == GroupedCalls(cs, 1) && (|calls| > 0 ==> SomeFlashed(outcome, 0, |calls|))
    ensures !Unsupported(cs, outcome)
  {
    FirstGroup(cs);
  }

  lemma Completed(cs: seq<Component>, outcome: nat -> int, calls: seq<Call>)
    requires calls == GroupedCalls(cs, |MAGICS|) && Soft(outcome, 0, |calls|) && !Unsupported(cs, outcome)
    ensures Flashes(cs, outcome, calls, 0)
  {
    assert calls == calls[..|calls|];
  }

  lemma HardStop(cs: seq<Component>, outcome: nat -> int, i: nat, before: seq<Call>, calls: seq<Call>)
    requires i < |MAGICS| && before == GroupedCalls(cs, i) && |before| < |calls| <= |before| + |Flagged(cs, MAGICS[i])|
    requires |calls| <= |GroupedCalls(cs, |MAGICS|)| && calls == GroupedCalls(cs, |MAGICS|)[..|calls|]
    requires Soft(outcome, 0, |calls| - 1) && Hard(outcome(|calls| - 1))
    requires i > 0 ==> !Unsupported(cs, outcome)
    ensures Flashes(cs, outcome, calls, outcome(|calls| - 1))
  {
    if i == 0 {
      assert before == [];
      assert !Unsupported(cs, outcome);
    }
  }

  /** The outcomes decide where the calls stop: at the first one that is neither
      0 nor -1; otherwise behind the droidboot images if all of them, and at least
      one, were refused with -1; otherwise nowhere. */
  lemma OutcomesDecide(cs: seq<Component>, outcome: nat -> int, calls: seq<Call>, ret: int)
    requires Flashes(cs, outcome, calls, ret)
    ensures var all, n := GroupedCalls(cs, |MAGICS|), |Flagged(cs, MAGICS[0])|;
            && (forall k: nat :: k < |all| && outcome(k) != 0 && outcome(k) != -1
                                 && (forall i: nat :: i < k ==> outcome(i) == 0 || outcome(i) == -1)
                                 && (n == 0 || k < n || exists i: nat :: i < n && outcome(i) == 0) ==>
                  calls == all[..k + 1] && ret == outcome(k))
            && (n > 0 && (forall i: nat :: i < n ==> outcome(i) == -1) ==>
                  |calls| == n && ret == -1)
            && ((forall i: nat :: i < |all| ==> outcome(i) == 0) ==> calls == all && ret == 0)
  {
    GroupedCallsGrow(cs, 1);
  }

  // ---------------------------------------------------------------- nothing lost, nothing twice

  /** The name under which a magic is flashed, among the first `n` groups. */
  function NameOf(magic: seq<byte>, n: nat): string
    requires n <= |MAGICS|
  {
    if n == 0 then "" else if magic == MAGICS[n - 1] then NAMES[n - 1] else NameOf(magic, n - 1)
  }

  /** The call each flagged component of the first `n` groups deserves, in file order. */
  function DueCalls(cs: seq<Component>, n: nat): seq<Call>
    requires n <= |MAGICS|
  {
    if |cs| == 0 then []
    else (if Due(cs[0], n) then [Call(NameOf(cs[0].magic, n), cs[0].body)] else []) + DueCalls(cs[1..], n)
  }

  predicate Due(c: Component, n: nat)
    requires n <= |MAGICS|
  {
    c.flash && c.magic in MAGICS[..n]
  }

  lemma MagicsDiffer(n: nat)
    requires n < |MAGICS|
    ensures MAGICS[n] !in MAGICS[..n]
  {
    forall i | 0 <= i < n ensures MAGICS[i] != MAGICS[n] {
      assert MAGICS[i][0] != MAGICS[n][0];
    }
  }

  lemma DueNext(c: Component, n: nat)
    requires n < |MAGICS|
    ensures Due(c, n + 1) <==> Due(c, n) || (c.flash && c.magic == MAGICS[n])
    ensures Due(c, n) ==> c.magic != MAGICS[n]
  {
    assert MAGICS[..n + 1] == MAGICS[..n] + [MAGICS[n]];
    MagicsDiffer(n);
  }

  lemma CallsForFirst(name: string, c: Component, cs: seq<Component>)
    ensures CallsFor(name, [c] + cs) == [Call(name, c.body)] + CallsFor(name, cs)
  {
  }

  /** One more group adds exactly its own calls to those that are due. */
  lemma {:induction false} DueGrows(cs: seq<Component>, n: nat)
    requires n < |MAGICS|
    ensures multiset(DueCalls(cs, n + 1))
         == multiset(DueCalls(cs, n)) + multiset(CallsFor(NAMES[n], Flagged(cs, MAGICS[n])))
  {
    if |cs| > 0 {
      DueGrows(cs[1..], n);
      DueNext(cs[0], n);
      CallsForFirst(NAMES[n], cs[0], Flagged(cs[1..], MAGICS[n]));
    }
  }

  lemma {:induction false} NothingDue(cs: seq<Component>)
    ensures DueCalls(cs, 0) == []
  {
    if |cs| > 0 {
      NothingDue(cs[1..]);
      assert MAGICS[..0] == [];
    }
  }

  /** The first `n` groups are a permutation of the calls due in file order. */
  ghost predicate Permuted(cs: seq<Component>, n: nat)
    requires n <= |MAGICS|
  {
    multiset(GroupedCalls(cs, n)) == multiset(DueCalls(cs, n))
  }

  lemma {:induction false} GroupsAreDue(cs: seq<Component>, n: nat)
    requires n <= |MAGICS|
    ensures Permuted(cs, n)
  {
    if n == 0 {
      NoGroupIsDue(cs, n);
    } else {
      GroupsAreDue(cs, n - 1);
      NextGroupIsDue(cs, n - 1, n);
    }
  }

  lemma NoGroupIsDue(cs: seq<Component>, n: nat)
    requires n == 0
    ensures Permuted(cs, n)
  {
    NothingDue(cs);
  }

  lemma NextGroupIsDue(cs: seq<Component>, n: nat, m: nat)
    requires n < |MAGICS| && m == n + 1 && Permuted(cs, n)
    ensures Permuted(cs, m)
  {
    DueGrows(cs, n);
  }

  /** Every flagged component of a known kind is called for exactly once, under
      the name of its kind, and nothing else is: the groups are a permutation of
      the calls that are due in file order. */
  lemma EachFlaggedOnce(cs: seq<Component>)
    ensures multiset(GroupedCalls(cs, |MAGICS|)) == multiset(DueCalls(cs, |MAGICS|))
  {
    GroupsAreDue(cs, |MAGICS|);
  }
}
