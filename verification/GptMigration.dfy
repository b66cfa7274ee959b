/**
 Moving from the OSIP store to a GPT partition table: the table is rewritten so
 that the boot, recovery and fastboot partitions lie over their stored images.
 */
module GptMigration {
  import opened Options
  import opened Bytes
  import OsipFormat
  import opened OsipSlots
  import opened OsipView
  import opened OsipStore

  // ---------------------------------------------------------------- decimal numbers

  function Digit(d: nat): char
    requires d < 10
  {
    ('0' as int + d) as char
  }

  function Dec(n: nat): string {
    if n < 10 then [Digit(n)] else Dec(n / 10) + [Digit(n % 10)]
  }

  function DecValue(s: string): int {
    if |s| == 0 then 0 else 10 * DecValue(s[..|s| - 1]) + (s[|s| - 1] as int - '0' as int)
  }

  lemma {:induction false} DecRoundTrip(n: nat)
    ensures DecValue(Dec(n)) == n
    ensures |Dec(n)| > 0 && '0' <= Dec(n)[0] <= '9'
  {
    if n < 10 {
      assert [Digit(n)][..0] == [];
    } else {
      DecRoundTrip(n / 10);
      var s := Dec(n / 10);
      assert (s + [Digit(n % 10)])[..|s|] == s;
    }
  }

  // ---------------------------------------------------------------- one line

  /** `strncmp(word, token, strlen(token)) == 0`: the token is a prefix of the word. */
  predicate Abbreviates(token: string, word: string) { token <= word }

  const UPDATED := ["boot", "recovery", "fastboot"]

  predicate AbbreviatesUpdated(token: string) {
    exists j :: 0 <= j < |UPDATED| && Abbreviates(token, UPDATED[j])
  }

  /** `get_named_osii_logical_start_block`. */
  function StartBlock(h: OsipFormat.Header, name: string): Option<u32>
    requires h.numPointers <= OsipFormat.MAX_DESC
  {
    var key := NamedKey(name);
    if key.None? then None
    else
      var i := Lookup(LiveAttrs(h), key.value);
      if i < 0 then None else Some(h.desc[i].lba)
  }

  /** What becomes of a line: kept with these tokens, dropped, or the whole
      migration is abandoned. */
  datatype Outcome = Keep(tokens: seq<string>) | Drop | Abort

  /** First token of an add line that decides about it: whether it names the
      reserved partition or an updated one. */
  function Deciding(tokens: seq<string>, i: nat): nat
    requires i <= |tokens|
    ensures i <= Deciding(tokens, i) <= |tokens|
    decreases |tokens| - i
  {
    if i == |tokens| || Abbreviates(tokens[i], "reserved") || AbbreviatesUpdated(tokens[i]) then i
    else Deciding(tokens, i + 1)
  }

  /** The two replacements at token `i`; `number` tells what `strtoull` accepts. */
  function ReplaceAt(tokens: seq<string>, i: nat, lba: u32, number: string -> bool): Outcome
    requires i + 1 < |tokens|
  {
    var size := Abbreviates(tokens[i], "-s");
    var base := Abbreviates(tokens[i], "-b");
    if (size || base) && !number(tokens[i + 1]) then Abort
    else
      var t := if size then tokens[i + 1 := Dec(OS_MAX_LBA)] else tokens;
      if base && !number(t[i + 1]) then Abort
      else if base then Keep(t[i + 1 := Dec(lba)]) else Keep(t)
  }

  function ReplaceFrom(tokens: seq<string>, i: nat, lba: u32, number: string -> bool): Outcome
    requires i < |tokens|
    decreases |tokens| - i
  {
    if i + 1 == |tokens| then Keep(tokens)
    else
      var r := ReplaceAt(tokens, i, lba, number);
      if r.Keep? && |r.tokens| == |tokens| then ReplaceFrom(r.tokens, i + 1, lba, number) else Abort
  }

  function RewriteLine(h: OsipFormat.Header, tokens: seq<string>, number: string -> bool): Outcome
    requires h.numPointers <= OsipFormat.MAX_DESC && |tokens| > 0
  {
    if !Abbreviates(tokens[0], "add") then Keep(tokens)
    else
      var i := Deciding(tokens, 0);
      if i == |tokens| then Keep(tokens)
      else
        var drop := Abbreviates(tokens[i], "reserved");
        if !AbbreviatesUpdated(tokens[i]) then Drop
        else
          var lba := StartBlock(h, tokens[i]);
          if lba.None? then Abort
          else
            var r := ReplaceFrom(tokens, 0, lba.value, number);
            if r.Abort? then Abort else if drop then Drop else r
  }

  // ---------------------------------------------------------------- the loops

  predicate IsFlag(token: string) { Abbreviates(token, "-s") || Abbreviates(token, "-b") }

  /** The loop that looks for the deciding token. */
  method FindDeciding(argv: seq<string>) returns (i: nat)
    ensures i == Deciding(argv, 0)
  {
    i := 0;
    while i < |argv|
      invariant 0 <= i <= |argv| && Deciding(argv, 0) == Deciding(argv, i)
    {
      var need, write := false, true;
      if Abbreviates(argv[i], "reserved") {
        write := false;
      }
      var j := 0;
      while j < |UPDATED|
        invariant 0 <= j <= |UPDATED| && !need
        invariant forall k :: 0 <= k < j ==> !Abbreviates(argv[i], UPDATED[k])
      {
        if Abbreviates(argv[i], UPDATED[j]) {
          need := true;
          break;
        }
        j := j + 1;
      }
      if need || !write {
        return;
      }
      i := i + 1;
    }
  }

  /** The loop that rewrites sizes and start blocks in the token buffers. */
  method ReplaceTokens(argv: seq<string>, lba: u32, number: string -> bool) returns (r: Outcome)
    requires |argv| > 0 && !IsFlag(argv[|argv| - 1])
    ensures r == ReplaceFrom(argv, 0, lba, number)
  {
    var t := argv;
    var i := 0;
    while i + 1 < |argv|
      invariant 0 <= i < |argv| == |t|
      invariant ReplaceFrom(argv, 0, lba, number) == ReplaceFrom(t, i, lba, number)
    {
      var token := t[i];
      if Abbreviates(token, "-s") {
        if !number(t[i + 1]) {
          return Abort;
        }
        t := t[i + 1 := Dec(OS_MAX_LBA)];
      }
      if Abbreviates(token, "-b") {
        if !number(t[i + 1]) {
          return Abort;
        }
        t := t[i + 1 := Dec(lba)];
      }
      i := i + 1;
    }
    r := Keep(t);
  }

  /** An add line of an updated partition that is stored: the only kind whose
      options are looked at. */
  predicate Rewrites(h: OsipFormat.Header, argv: seq<string>)
    requires h.numPointers <= OsipFormat.MAX_DESC && |argv| > 0
  {
    && Abbreviates(argv[0], "add")
    && var d := Deciding(argv, 0);
       d < |argv| && AbbreviatesUpdated(argv[d]) && StartBlock(h, argv[d]).Some?
  }

  /** One line of the table. */
  method MigrateLine(h: OsipFormat.Header, argv: seq<string>, number: string -> bool) returns (r: Outcome)
    requires h.numPointers <= OsipFormat.MAX_DESC && |argv| > 0
    requires Rewrites(h, argv) ==> !IsFlag(argv[|argv| - 1])
    ensures r == RewriteLine(h, argv, number)
  {
    if !Abbreviates(argv[0], "add") {
      return Keep(argv);
    }
    var i := FindDeciding(argv);
    if i == |argv| {
      return Keep(argv);
    }
    DecidingMeaning(argv, 0);
    var write := !Abbreviates(argv[i], "reserved");
    var need := exists j :: 0 <= j < |UPDATED| && Abbreviates(argv[i], UPDATED[j]);
    r := Keep(argv);
    if need {
      var lba := StartBlock(h, argv[i]);
      if lba.None? {
        return Abort;
      }
      r := ReplaceTokens(argv, lba.value, number);
      if r.Abort? {
        return;
      }
    }
    if !write {
      r := Drop;
    }
  }

  /** The rewritten table: the kept lines in order, or nothing if any line aborts. */
  function Migrated(h: OsipFormat.Header, lines: seq<seq<string>>, number: string -> bool): Option<seq<seq<string>>>
    requires h.numPointers <= OsipFormat.MAX_DESC && forall i :: 0 <= i < |lines| ==> |lines[i]| > 0
  {
    if |lines| == 0 then Some([])
    else
      var n := |lines| - 1;
      Appended(Migrated(h, lines[..n], number), RewriteLine(h, lines[n], number))
  }

  function Appended(table: Option<seq<seq<string>>>, r: Outcome): Option<seq<seq<string>>> {
    if table.None? || r.Abort? then None else if r.Drop? then table else Some(table.value + [r.tokens])
  }

  lemma MigratedSnoc(h: OsipFormat.Header, lines: seq<seq<string>>, i: nat, number: string -> bool)
    requires h.numPointers <= OsipFormat.MAX_DESC && forall k :: 0 <= k < |lines| ==> |lines[k]| > 0
    requires i < |lines|
    ensures Migrated(h, lines[..i + 1], number)
         == Appended(Migrated(h, lines[..i], number), RewriteLine(h, lines[i], number))
  {
    assert lines[..i + 1][..i] == lines[..i];
  }

  lemma {:induction false} AbortSticks(h: OsipFormat.Header, lines: seq<seq<string>>, i: nat, number: string -> bool)
    requires h.numPointers <= OsipFormat.MAX_DESC && forall k :: 0 <= k < |lines| ==> |lines[k]| > 0
    requires i <= |lines| && Migrated(h, lines[..i], number).None?
    ensures Migrated(h, lines, number).None?
    decreases |lines| - i
  {
    if i < |lines| {
      MigratedSnoc(h, lines, i, number);
      AbortSticks(h, lines, i + 1, number);
    } else {
      assert lines[..i] == lines;
    }
  }

  /** `FlashOsipToGPTPartition` behind the first line of the table. */
  method MigrateTable(h: OsipFormat.Header, lines: seq<seq<string>>, number: string -> bool)
    returns (ok: bool, out: seq<seq<string>>)
    requires h.numPointers <= OsipFormat.MAX_DESC
    requires forall i :: 0 <= i < |lines| ==>
               |lines[i]| > 0 && (Rewrites(h, lines[i]) ==> !IsFlag(lines[i][|lines[i]| - 1]))
    ensures ok <==> Migrated(h, lines, number).Some?
    ensures ok ==> out == Migrated(h, lines, number).value
  {
    out := [];
    var i := 0;
    while i < |lines|
      invariant 0 <= i <= |lines| && Migrated(h, lines[..i], number) == Some(out)
    {
      var r := MigrateLine(h, lines[i], number);
      MigratedSnoc(h, lines, i, number);
      if r.Abort? {
        AbortSticks(h, lines, i + 1, number);
        return false, out;
      }
      if r.Keep? {
        out := out + [r.tokens];
      }
      i := i + 1;
    }
    assert lines[..|lines|] == lines;
    ok := true;
  }

  // ---------------------------------------------------------------- exact tables

  /** A line that spells out its names and options, every option with a number. */
  predicate Exact(tokens: seq<string>, number: string -> bool) {
    && |tokens| > 0
    && (forall i :: 0 <= i < |tokens| ==>
          && (Abbreviates(tokens[i], "reserved") ==> tokens[i] == "reserved")
          && (AbbreviatesUpdated(tokens[i]) ==> tokens[i] in UPDATED)
          && (Abbreviates(tokens[i], "-s") ==> tokens[i] == "-s")
          && (Abbreviates(tokens[i], "-b") ==> tokens[i] == "-b"))
    && (forall i :: 0 <= i < |tokens| && IsFlag(tokens[i]) ==>
          i + 1 < |tokens| && number(tokens[i + 1]) && !IsFlag(tokens[i + 1]))
  }

  /** Token `k` of the rewritten line. */
  function NewToken(tokens: seq<string>, k: nat, lba: u32): string
    requires k < |tokens|
  {
    if k > 0 && tokens[k - 1] == "-s" then Dec(OS_MAX_LBA)
    else if k > 0 && tokens[k - 1] == "-b" then Dec(lba)
    else tokens[k]
  }

  lemma NumberIsNoFlag(n: nat)
    ensures !IsFlag(Dec(n))
  {
    DecRoundTrip(n);
  }

  /** Tokens up to `i` are final, the later ones are still the original ones. */
  ghost predicate Halfway(tokens: seq<string>, t: seq<string>, i: nat, lba: u32) {
    && |t| == |tokens| && i < |tokens|
    && (forall k :: 0 <= k <= i ==> t[k] == NewToken(tokens, k, lba))
    && (forall k :: i < k < |tokens| ==> t[k] == tokens[k])
  }

  lemma ReplaceOne(tokens: seq<string>, t: seq<string>, i: nat, lba: u32, number: string -> bool)
    requires Exact(tokens, number) && Halfway(tokens, t, i, lba) && i + 1 < |tokens|
    ensures ReplaceAt(t, i, lba, number).Keep?
    ensures Halfway(tokens, ReplaceAt(t, i, lba, number).tokens, i + 1, lba)
  {
    if i > 0 && IsFlag(tokens[i - 1]) {
      ReplaceNumber(tokens, t, i, lba, number);
    } else {
      ReplaceWord(tokens, t, i, lba, number);
    }
  }

  /** The token is the number behind an option: nothing happens. */
  lemma ReplaceNumber(tokens: seq<string>, t: seq<string>, i: nat, lba: u32, number: string -> bool)
    requires Exact(tokens, number) && Halfway(tokens, t, i, lba) && i + 1 < |tokens|
    requires i > 0 && IsFlag(tokens[i - 1])
    ensures ReplaceAt(t, i, lba, number) == Keep(t) && Halfway(tokens, t, i + 1, lba)
  {
    NumberIsNoFlag(OS_MAX_LBA);
    NumberIsNoFlag(lba);
    assert tokens[i - 1] == "-s" || tokens[i - 1] == "-b";
    assert !IsFlag(t[i]) && !IsFlag(tokens[i]);
  }

  /** The token is still the original one: an option changes the token behind it. */
  lemma ReplaceWord(tokens: seq<string>, t: seq<string>, i: nat, lba: u32, number: string -> bool)
    requires Exact(tokens, number) && Halfway(tokens, t, i, lba) && i + 1 < |tokens|
    requires i == 0 || !IsFlag(tokens[i - 1])
    ensures ReplaceAt(t, i, lba, number).Keep?
    ensures Halfway(tokens, ReplaceAt(t, i, lba, number).tokens, i + 1, lba)
  {
    var v := NewToken(tokens, i + 1, lba);
    assert t[i] == tokens[i] && t[i + 1] == tokens[i + 1];
    ReplaceIsNewToken(tokens, t, i, lba, number);
    HalfwayStep(tokens, t, i, lba, v);
  }

  lemma ReplaceIsNewToken(tokens: seq<string>, t: seq<string>, i: nat, lba: u32, number: string -> bool)
    requires Exact(tokens, number) && |t| == |tokens| && i + 1 < |tokens|
    requires t[i] == tokens[i] && t[i + 1] == tokens[i + 1]
    ensures ReplaceAt(t, i, lba, number) == Keep(t[i + 1 := NewToken(tokens, i + 1, lba)])
  {
    FlagsDiffer();
    if Abbreviates(t[i], "-s") {
      assert t[i] == "-s" && !Abbreviates(t[i], "-b");
    } else if Abbreviates(t[i], "-b") {
      assert t[i] == "-b";
    } else {
      assert !IsFlag(tokens[i]) && NewToken(tokens, i + 1, lba) == tokens[i + 1];
      assert t[i + 1 := t[i + 1]] == t;
    }
  }

  lemma HalfwayStep(tokens: seq<string>, t: seq<string>, i: nat, lba: u32, v: string)
    requires Halfway(tokens, t, i, lba) && i + 1 < |tokens| && v == NewToken(tokens, i + 1, lba)
    ensures Halfway(tokens, t[i + 1 := v], i + 1, lba)
  {
  }

  lemma FlagsDiffer()
    ensures "-s" != "-b" && IsFlag("-s") && IsFlag("-b")
    ensures !Abbreviates("-s", "-b") && !Abbreviates("-b", "-s")
  {
    assert "-s"[1] != "-b"[1];
  }

  lemma {:induction false} ReplaceAll(tokens: seq<string>, t: seq<string>, i: nat, lba: u32, number: string -> bool)
    requires Exact(tokens, number) && Halfway(tokens, t, i, lba)
    ensures ReplaceFrom(t, i, lba, number).Keep?
    ensures Halfway(tokens, ReplaceFrom(t, i, lba, number).tokens, |tokens| - 1, lba)
    decreases |tokens| - i
  {
    if i + 1 < |tokens| {
      ReplaceOne(tokens, t, i, lba, number);
      ReplaceAll(tokens, ReplaceAt(t, i, lba, number).tokens, i + 1, lba, number);
    }
  }

  lemma {:induction false} DecidingMeaning(tokens: seq<string>, i: nat)
    requires i <= |tokens|
    ensures var d := Deciding(tokens, i);
            && (d < |tokens| ==> Abbreviates(tokens[d], "reserved") || AbbreviatesUpdated(tokens[d]))
            && forall k :: i <= k < d ==> !Abbreviates(tokens[k], "reserved") && !AbbreviatesUpdated(tokens[k])
    decreases |tokens| - i
  {
    if i < |tokens| && !Abbreviates(tokens[i], "reserved") && !AbbreviatesUpdated(tokens[i]) {
      DecidingMeaning(tokens, i + 1);
    }
  }

  /** The fate of an exact line: an add line of the reserved partition is
      dropped; one of an updated partition keeps its tokens in order except for
      the size and the start block; every other line is kept as it is. */
  lemma ExactLine(h: OsipFormat.Header, tokens: seq<string>, number: string -> bool)
    requires h.numPointers <= OsipFormat.MAX_DESC && Exact(tokens, number)
    ensures var r, d := RewriteLine(h, tokens, number), Deciding(tokens, 0);
            if !Abbreviates(tokens[0], "add") || d == |tokens| then r == Keep(tokens)
            else if tokens[d] == "reserved" then r == Drop
            else if StartBlock(h, tokens[d]).None? then r == Abort
            else r.Keep? && |r.tokens| == |tokens|
                 && forall k :: 0 <= k < |tokens| ==>
                      r.tokens[k] == NewToken(tokens, k, StartBlock(h, tokens[d]).value)
  {
    var d := Deciding(tokens, 0);
    DecidingMeaning(tokens, 0);
    if d < |tokens| {
      ReservedIsNotUpdated();
      if AbbreviatesUpdated(tokens[d]) && StartBlock(h, tokens[d]).Some? {
        ReplaceAll(tokens, tokens, 0, StartBlock(h, tokens[d]).value, number);
      }
    }
  }

  lemma ReservedIsNotUpdated()
    ensures !AbbreviatesUpdated("reserved") && "reserved" !in UPDATED
    ensures forall j :: 0 <= j < |UPDATED| ==> !Abbreviates(UPDATED[j], "reserved")
  {
    assert "reserved"[0] == 'r' && "reserved"[2] == 's';
    assert UPDATED[0][0] == 'b' && UPDATED[1][2] == 'c' && UPDATED[2][0] == 'f';
  }

  // ---------------------------------------------------------------- the partitions

  /** Sectors `start` up to `start + OS_MAX_LBA`, the partition of a rewritten line. */
  predicate Overlap(a: nat, b: nat) {
    a < b + OS_MAX_LBA && b < a + OS_MAX_LBA
  }

  lemma UpdatedName(h: OsipFormat.Header, name: string)
    requires Slotted(h) && name in UPDATED && StartBlock(h, name).Some?
    ensures NamedKey(name).Some?
    ensures var i := Lookup(LiveAttrs(h), NamedKey(name).value);
            && 0 <= i < h.numPointers && StartBlock(h, name).value == h.desc[i].lba
            && InSlot(h.desc[i]) && GoesToOsSlot(OsipFormat.Class(h.desc[i].attribute))
  {
    var key := NamedKey(name).value;
    LookupMeaning(LiveAttrs(h), key);
    var i := Lookup(LiveAttrs(h), key);
    assert LiveAttrs(h)[i] == h.desc[i].attribute;
  }

  lemma UpdatedKeysDiffer(a: string, b: string)
    requires a in UPDATED && b in UPDATED && a != b
    ensures NamedKey(a) != NamedKey(b)
  {
  }

  lemma OsSlotsSpaced(a: nat, b: nat)
    requires a in OS_SLOTS && b in OS_SLOTS && a != b
    ensures !Overlap(a, b)
  {
  }

  /** Under the slot discipline each rewritten partition contains the live image
      of its name, and different ones do not overlap. */
  lemma PartitionsAreDisjoint(h: OsipFormat.Header, a: string, b: string)
    requires Slotted(h) && a in UPDATED && b in UPDATED && a != b
    requires StartBlock(h, a).Some? && StartBlock(h, b).Some?
    ensures !Overlap(StartBlock(h, a).value, StartBlock(h, b).value)
    ensures var o := h.desc[Lookup(LiveAttrs(h), NamedKey(a).value)];
            StartBlock(h, a).value <= o.lba && o.lba + o.size <= StartBlock(h, a).value + OS_MAX_LBA
  {
    UpdatedName(h, a);
    UpdatedName(h, b);
    UpdatedKeysDiffer(a, b);
    var attrs := LiveAttrs(h);
    LookupMeaning(attrs, NamedKey(a).value);
    LookupMeaning(attrs, NamedKey(b).value);
    OsSlotsSpaced(StartBlock(h, a).value, StartBlock(h, b).value);
  }

  /** Where the line puts its partition: both options occur, and the numbers
      behind them are always these. */
  ghost predicate Describes(tokens: seq<string>, start: nat, size: nat) {
    AlwaysBefore(tokens, "-b", start) && AlwaysBefore(tokens, "-s", size)
  }

  /** The option occurs, and `n` stands behind it wherever it does. */
  ghost predicate AlwaysBefore(tokens: seq<string>, option: string, n: nat) {
    && (exists k :: 0 <= k < |tokens| && tokens[k] == option)
    && (forall k :: 0 <= k < |tokens| && tokens[k] == option ==>
          k + 1 < |tokens| && DecValue(tokens[k + 1]) == n)
  }

  /** An add line for the updated partition `name`, with both options. */
  ghost predicate UpdatedLine(tokens: seq<string>, name: string) {
    && |tokens| > 0 && Abbreviates(tokens[0], "add")
    && Deciding(tokens, 0) < |tokens| && tokens[Deciding(tokens, 0)] == name && name in UPDATED
    && "-s" in tokens && "-b" in tokens
  }

  /** Options keep their places, and the numbers behind them are the new ones. */
  lemma OptionKept(tokens: seq<string>, number: string -> bool, k: nat, lba: u32)
    requires Exact(tokens, number) && k < |tokens|
    ensures IsFlag(NewToken(tokens, k, lba)) <==> IsFlag(tokens[k])
    ensures IsFlag(tokens[k]) ==>
              k + 1 < |tokens| && NewToken(tokens, k, lba) == tokens[k]
              && NewToken(tokens, k + 1, lba) == Dec(if tokens[k] == "-s" then OS_MAX_LBA else lba)
  {
    FlagsDiffer();
    NumberIsNoFlag(OS_MAX_LBA);
    NumberIsNoFlag(lba);
  }

  /** A rewritten line says where the image of its name starts, and the slot size. */
  lemma LineDescribes(h: OsipFormat.Header, tokens: seq<string>, number: string -> bool, name: string)
    requires h.numPointers <= OsipFormat.MAX_DESC && Exact(tokens, number) && UpdatedLine(tokens, name)
    requires StartBlock(h, name).Some?
    ensures var r := RewriteLine(h, tokens, number);
            r.Keep? && Describes(r.tokens, StartBlock(h, name).value, OS_MAX_LBA)
  {
    ReservedIsNotUpdated();
    ExactLine(h, tokens, number);
    TokensDescribe(tokens, RewriteLine(h, tokens, number).tokens, number, StartBlock(h, name).value);
  }

  lemma OptionDescribes(tokens: seq<string>, t: seq<string>, number: string -> bool, lba: u32, option: string,
                        n: nat)
    requires Exact(tokens, number) && option in tokens && IsFlag(option)
    requires n == if option == "-s" then OS_MAX_LBA else lba
    requires |t| == |tokens| && forall k :: 0 <= k < |t| ==> t[k] == NewToken(tokens, k, lba)
    ensures AlwaysBefore(t, option, n)
  {
    var b :| 0 <= b < |tokens| && tokens[b] == option;
    OptionKept(tokens, number, b, lba);
    assert t[b] == option;
    forall k | 0 <= k < |t| && t[k] == option ensures k + 1 < |t| && DecValue(t[k + 1]) == n {
      OptionKept(tokens, number, k, lba);
      DecRoundTrip(n);
    }
  }

  lemma TokensDescribe(tokens: seq<string>, t: seq<string>, number: string -> bool, lba: u32)
    requires Exact(tokens, number) && "-s" in tokens && "-b" in tokens
    requires |t| == |tokens| && forall k :: 0 <= k < |t| ==> t[k] == NewToken(tokens, k, lba)
    ensures Describes(t, lba, OS_MAX_LBA)
  {
    FlagsDiffer();
    OptionDescribes(tokens, t, number, lba, "-s", OS_MAX_LBA);
    OptionDescribes(tokens, t, number, lba, "-b", lba);
  }

  // ---------------------------------------------------------------- the whole table

  /** An add line of the reserved partition. */
  predicate Dropped(tokens: seq<string>)
    requires |tokens| > 0
  {
    Abbreviates(tokens[0], "add") && Deciding(tokens, 0) < |tokens| && tokens[Deciding(tokens, 0)] == "reserved"
  }

  /** The other lines, in order. */
  function Kept(lines: seq<seq<string>>): (r: seq<seq<string>>)
    requires forall i :: 0 <= i < |lines| ==> |lines[i]| > 0
    ensures forall i :: 0 <= i < |r| ==> |r[i]| > 0
  {
    if |lines| == 0 then []
    else
      var n := |lines| - 1;
      if Dropped(lines[n]) then Kept(lines[..n]) else Kept(lines[..n]) + [lines[n]]
  }

  /** A table that spells out its names, over a store that holds the updated ones. */
  ghost predicate ExactTable(h: OsipFormat.Header, lines: seq<seq<string>>, number: string -> bool)
    requires h.numPointers <= OsipFormat.MAX_DESC
  {
    && (forall i :: 0 <= i < |lines| ==> |lines[i]| > 0 && Exact(lines[i], number))
    && (forall j :: 0 <= j < |UPDATED| ==> StartBlock(h, UPDATED[j]).Some?)
  }

  lemma LineOutcome(h: OsipFormat.Header, tokens: seq<string>, number: string -> bool)
    requires h.numPointers <= OsipFormat.MAX_DESC && Exact(tokens, number)
    requires forall j :: 0 <= j < |UPDATED| ==> StartBlock(h, UPDATED[j]).Some?
    ensures if Dropped(tokens) then RewriteLine(h, tokens, number).Drop? else RewriteLine(h, tokens, number).Keep?
  {
    ExactLine(h, tokens, number);
    DecidingMeaning(tokens, 0);
    var d := Deciding(tokens, 0);
    if d < |tokens| && tokens[d] != "reserved" {
      var j :| 0 <= j < |UPDATED| && UPDATED[j] == tokens[d];
      assert StartBlock(h, UPDATED[j]).Some?;
    }
  }

  /** Line by line, the new table is the rewriting of the kept lines. */
  ghost predicate RewrittenTable(h: OsipFormat.Header, kept: seq<seq<string>>, number: string -> bool,
                                 out: seq<seq<string>>)
    requires h.numPointers <= OsipFormat.MAX_DESC && forall i :: 0 <= i < |kept| ==> |kept[i]| > 0
  {
    |out| == |kept| && forall i :: 0 <= i < |kept| ==> RewriteLine(h, kept[i], number) == Keep(out[i])
  }

  /** A spelled-out table is never abandoned: the reserved lines are dropped, the
      others stay in order, each rewritten. */
  lemma {:induction false} ExactTableMigrates(h: OsipFormat.Header, lines: seq<seq<string>>, number: string -> bool)
    requires h.numPointers <= OsipFormat.MAX_DESC && ExactTable(h, lines, number)
    ensures Migrated(h, lines, number).Some?
    ensures RewrittenTable(h, Kept(lines), number, Migrated(h, lines, number).value)
  {
    if |lines| > 0 {
      var n := |lines| - 1;
      ExactTableMigrates(h, lines[..n], number);
      LineOutcome(h, lines[n], number);
    }
  }

  lemma {:induction false} KeptAreLines(lines: seq<seq<string>>, i: nat)
    requires (forall k :: 0 <= k < |lines| ==> |lines[k]| > 0) && i < |Kept(lines)|
    ensures Kept(lines)[i] in lines && !Dropped(Kept(lines)[i])
  {
    var n := |lines| - 1;
    if i < |Kept(lines[..n])| { KeptAreLines(lines[..n], i); }
  }

  /** In the new table, the lines of two different updated partitions describe
      partitions that do not overlap, each around the live image of its name. */
  lemma TablePartitionsAreDisjoint(h: OsipFormat.Header, lines: seq<seq<string>>, number: string -> bool,
                                   i: nat, j: nat, a: string, b: string)
    requires Slotted(h) && ExactTable(h, lines, number) && i < |Kept(lines)| && j < |Kept(lines)|
    requires UpdatedLine(Kept(lines)[i], a) && UpdatedLine(Kept(lines)[j], b) && a != b
    ensures Migrated(h, lines, number).Some? && |Migrated(h, lines, number).value| == |Kept(lines)|
    ensures StartBlock(h, a).Some? && StartBlock(h, b).Some?
    ensures var out, x, y := Migrated(h, lines, number).value, StartBlock(h, a).value, StartBlock(h, b).value;
            && Describes(out[i], x, OS_MAX_LBA) && Describes(out[j], y, OS_MAX_LBA)
            && (x + OS_MAX_LBA <= y || y + OS_MAX_LBA <= x)
            && var o := h.desc[Lookup(LiveAttrs(h), NamedKey(a).value)];
               x <= o.lba && o.lba + o.size <= x + OS_MAX_LBA
  {
    ExactTableMigrates(h, lines, number);
    KeptAreLines(lines, i);
    KeptAreLines(lines, j);
    var t, u := Kept(lines)[i], Kept(lines)[j];
    StoredUpdated(h, a);
    StoredUpdated(h, b);
    LineDescribes(h, t, number, a);
    LineDescribes(h, u, number, b);
    PartitionsAreDisjoint(h, a, b);
  }

  lemma StoredUpdated(h: OsipFormat.Header, name: string)
    requires h.numPointers <= OsipFormat.MAX_DESC && name in UPDATED
    requires forall j :: 0 <= j < |UPDATED| ==> StartBlock(h, UPDATED[j]).Some?
    ensures StartBlock(h, name).Some?
  {
    var j :| 0 <= j < |UPDATED| && UPDATED[j] == name;
    assert StartBlock(h, UPDATED[j]).Some?;
  }
}
