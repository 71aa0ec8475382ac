// The FRAM driver and the start and save routines that use it, as programs.
// A device has a number of bytes it can still store before its supply fails; a
// bus that is not reliable may also reject any write after any of its bytes, and
// any read, which then leaves anything in the buffer of the caller.

module FramDevice {
  import opened Basics
  import opened FramBlocks
  import opened FramStore
  import opened FramCopies

  /** The blocks of all structures but some are as they were. */
  ghost predicate OthersKept(before: seq<byte>, after: seq<byte>, some: set<Store>)
    requires |before| == |after| == FRAM_SIZE
  {
    forall other: Store :: other !in some ==>
      PrimaryOf(after, other) == PrimaryOf(before, other) && BackupOf(after, other) == BackupOf(before, other)
  }

  class Fram {
    const data: array<byte>
    const crc: seq<byte> -> nat
    const reliable: bool
    var power: nat

    constructor (data: array<byte>, crc: seq<byte> -> nat, reliable: bool, power: nat)
      ensures this.data == data && this.crc == crc && this.reliable == reliable && this.power == power
    {
      this.data, this.crc, this.reliable, this.power := data, crc, reliable, power;
    }

    ghost predicate Valid()
      reads this
    {
      data.Length == FRAM_SIZE
    }

    /** fm24_write: the bytes arrive one after the other until one is refused; an error may also be reported after the last. */
    method Write(addr: nat, bytes: seq<byte>) returns (ok: bool, ghost stored: nat)
      requires Valid() && addr + |bytes| <= FRAM_SIZE
      modifies data, `power
      ensures stored <= |bytes| && stored <= old(power) && power == old(power) - stored
      ensures data[..] == Splice(old(data[..]), addr, bytes[..stored])
      ensures (ok ==> stored == |bytes|) && (reliable && stored == |bytes| ==> ok) && (reliable ==> ok || power == 0)
    {
      var limit: nat := |bytes|;
      if !reliable {
        limit := *;
      }
      ghost var before := data[..];
      var i := 0;
      assert Splice(before, addr, bytes[..0]) == before;
      while i < |bytes| && i < limit && power > 0
        invariant i <= |bytes| && power == old(power) - i && i <= old(power)
        invariant data[..] == Splice(before, addr, bytes[..i])
        decreases |bytes| - i
      {
        data[addr + i] := bytes[i];
        power := power - 1;
        i := i + 1;
        assert bytes[..i] == bytes[..i - 1] + [bytes[i - 1]];
      }
      stored := i;
      ok := i == |bytes|;
      if !reliable && ok {
        ok := *;
      }
    }

    /** fm24_read */
    method Read(addr: nat, len: nat) returns (ok: bool, bytes: seq<byte>)
      requires Valid() && addr + len <= FRAM_SIZE
      ensures |bytes| == len && (ok ==> bytes == Block(data[..], addr, len)) && (reliable ==> ok)
    {
      ok, bytes := true, data[addr..addr + len];
      if !reliable {
        ok := *;
        if !ok {
          bytes :| |bytes| == len;
        }
      }
    }

    /** fm24_ping */
    method Ping() returns (ok: bool)
      ensures reliable ==> ok
    {
      ok := true;
      if !reliable {
        ok := *;
      }
    }

    /** Since the FRAM held mem and could store n bytes, exactly these writes were tried, if the bus is reliable. */
    ghost predicate Tracks(mem: seq<byte>, n: nat, ws: seq<FramStore.Write>)
      reads this, data
    {
      && Valid() && |mem| == FRAM_SIZE && AllBlocks(ws)
      && (reliable ==> data[..] == After(mem, ws, n) && power == Rest(n, Total(ws)))
    }

    lemma NothingTracked()
      requires Valid()
      ensures Tracks(data[..], power, [])
    {
      BlocksFit(data[..], []);
    }

    /** write_block, write_data_block and write_cfg_block: the structure, then its CRC. */
    method WriteBlock(st: Store, addr: nat, cfg: seq<byte>, ghost mem: seq<byte>, ghost n: nat, ghost ws: seq<FramStore.Write>)
      returns (ok: bool)
      requires Valid() && |cfg| == Size(st) && (addr == Primary(st) || addr == Backup(st))
      requires Tracks(mem, n, ws)
      modifies data, `power
      ensures Tracks(mem, n, ws + [FramStore.Write(st, addr, Image(crc, cfg))])
      ensures ok ==> data[..] == Splice(old(data[..]), addr, Image(crc, cfg))
      ensures reliable ==> (ok <==> BlockSize(st) <= old(power)) && power == Rest(old(power), BlockSize(st))
      ensures OthersKept(old(data[..]), data[..], {st})
    {
      hide Splice, After, Block;
      ghost var before, image := data[..], Image(crc, cfg);
      var sum := Checksum(crc, cfg);
      ghost var stored, more := 0, 0;
      ok, stored := Write(addr, cfg);
      if ok {
        ok, more := Write(addr + Size(st), sum);
        SpliceTwice(before, addr, cfg, sum[..more]);
      }
      ghost var k := stored + more;
      ghost var w := FramStore.Write(st, addr, image);
      assert image[..k] == if stored < |cfg| then cfg[..k] else cfg + sum[..more];
      assert cfg[..|cfg|] == cfg && image[..|image|] == image;
      assert data[..] == Splice(before, addr, image[..k]);
      assert IsBlock(w);
      if reliable {
        AfterOneMore(mem, ws, w, n);
      }
      forall other: Store | other != st
        ensures PrimaryOf(data[..], other) == PrimaryOf(before, other)
        ensures BackupOf(data[..], other) == BackupOf(before, other)
      {
        WriteSeen(before, w, other, k);
      }
    }

    /** The two calls that write both copies; the second is made even if the first fails. */
    method WriteBoth(st: Store, cfg: seq<byte>, ghost mem: seq<byte>, ghost n: nat, ghost ws: seq<FramStore.Write>)
      returns (ok: bool)
      requires Valid() && |cfg| == Size(st) && Tracks(mem, n, ws)
      modifies data, `power
      ensures Tracks(mem, n, ws + Both(crc, st, cfg))
      ensures var both := Both(crc, st, cfg); ok ==> data[..] == After(old(data[..]), both, Total(both))
      ensures reliable ==> (ok <==> 2 * BlockSize(st) <= old(power)) && power == Rest(old(power), 2 * BlockSize(st))
      ensures OthersKept(old(data[..]), data[..], {st})
    {
      hide After, Splice, Block;
      ghost var before, power0 := data[..], power;
      ghost var first, second := FramStore.Write(st, Primary(st), Image(crc, cfg)), FramStore.Write(st, Backup(st), Image(crc, cfg));
      ok := WriteBlock(st, Primary(st), cfg, mem, n, ws);
      ghost var mid := data[..];
      var more := WriteBlock(st, Backup(st), cfg, mem, n, ws + [first]);
      assert ws + [first] + [second] == ws + Both(crc, st, cfg);
      if ok && more {
        TwoWrites(before, first, second);
      }
      ok := ok && more;
    }
  }

  lemma TwoWrites(mem: seq<byte>, first: FramStore.Write, second: FramStore.Write)
    requires |mem| == FRAM_SIZE && IsBlock(first) && IsBlock(second)
    ensures After(mem, [first, second], Total([first, second]))
            == Splice(Splice(mem, first.addr, first.bytes), second.addr, second.bytes)
  {
    hide Splice;
    BlocksFit(mem, []);
    AfterOneMore(mem, [], first, Total([first, second]));
    AfterOneMore(mem, [first], second, Total([first, second]));
    assert [] + [first] == [first] && [first] + [second] == [first, second];
    assert first.bytes[..|first.bytes|] == first.bytes && second.bytes[..|second.bytes|] == second.bytes;
    assert Total([]) == 0;
  }

  function Rest(n: nat, used: nat): nat { if used <= n then n - used else 0 }

  lemma SpliceTwice(mem: seq<byte>, addr: nat, first: seq<byte>, second: seq<byte>)
    requires addr + |first| + |second| <= |mem|
    ensures Splice(Splice(mem, addr, first), addr + |first|, second) == Splice(mem, addr, first + second)
    ensures Splice(mem, addr, first + []) == Splice(mem, addr, first)
  {
    assert first + [] == first;
  }

  /** One more block after a run of writes. */
  lemma {:induction false} AfterOneMore(mem: seq<byte>, ws: seq<FramStore.Write>, w: FramStore.Write, n: nat)
    requires |mem| == FRAM_SIZE && AllBlocks(ws) && IsBlock(w)
    ensures AllBlocks(ws + [w]) && Total(ws + [w]) == Total(ws) + |w.bytes|
    ensures var left := Rest(n, Total(ws));
            After(mem, ws + [w], n)
            == Splice(After(mem, ws, n), w.addr, w.bytes[..if left < |w.bytes| then left else |w.bytes|])
    decreases |ws|
  {
    hide Splice;
    BlocksFit(mem, ws + [w]);
    BlocksFit(mem, ws);
    assert w.bytes[..0] == [] && w.bytes[..|w.bytes|] == w.bytes;
    if ws == [] {
      assert ws + [w] == [w] && [w][1..] == [] && [w][0] == w;
      assert After(mem, ws, n) == mem && Total(ws) == 0;
      BlocksFit(mem, [w]);
      assert Fits(mem, [w][0]);
      if n >= |w.bytes| {
        assert Cut(Splice(mem, w.addr, w.bytes), [], n - |w.bytes|) == Splice(mem, w.addr, w.bytes);
      }
    } else {
      var head := ws[0];
      assert IsBlock(head);
      assert (ws + [w])[1..] == ws[1..] + [w] && (ws + [w])[0] == head;
      AfterOneMore(Splice(mem, head.addr, head.bytes), ws[1..], w, if n < |head.bytes| then 0 else n - |head.bytes|);
    }
  }

  // ------------------------------------------------------------ net_config_fram.c

  class NetConfig {
    const fram: Fram
    var config: seq<byte>        // g_cfg

    constructor (fram: Fram, config: seq<byte>)
      ensures this.fram == fram && this.config == config
    {
      this.fram, this.config := fram, config;
    }

    ghost predicate Valid()
      reads this, fram
    {
      fram.Valid() && |config| == Size(Net)
    }

    /** read_block and the test of the magic number; read says whether the bus let both reads through. */
    method ReadBlock(addr: nat) returns (ok: bool, cfg: seq<byte>, ghost read: bool)
      requires Valid() && (addr == Primary(Net) || addr == Backup(Net))
      ensures |cfg| == Size(Net) && (fram.reliable ==> read)
      ensures var block := Block(fram.data[..], addr, BlockSize(Net));
              && (ok <==> Usable(fram.crc, Net, block, read)) && (ok ==> cfg == block[..Size(Net)])
              && (ok <==> read && ChecksumRight(fram.crc, Net, block) && MagicRight(Net, block))
    {
      hide Intact;
      AcceptedIsIntact(fram.crc, Net, Block(fram.data[..], addr, BlockSize(Net)));
      BothTests(fram.crc, Net, Block(fram.data[..], addr, BlockSize(Net)));
      read := false;
      ok, cfg := fram.Read(addr, Size(Net));
      if !ok {
        return;
      }
      var stored;
      ok, stored := fram.Read(addr + Size(Net), 4);
      if !ok {
        return;
      }
      read := true;
      ok := Checksum(fram.crc, cfg) == stored && cfg[..4] == Word(NET_MAGIC);
      assert fram.data[addr..addr + BlockSize(Net)][Size(Net)..] == stored;
      assert fram.data[addr..addr + BlockSize(Net)][..Size(Net)] == cfg;
    }

    /**
     * net_config_init.  first and second say whether the reads of the two copies went through
     * (of the backup only if it was read at all), written whether all writes were complete.
     */
    method Init() returns (ghost first: bool, ghost second: bool, ghost written: bool)
      requires Valid()
      modifies this, fram.data, fram`power
      ensures Valid() && (fram.reliable ==> first && second)
      ensures config == Chosen(fram.crc, old(fram.data[..]), Net, first, second)
      ensures var ws := ChosenWrites(fram.crc, old(fram.data[..]), Net, first, second);
              && fram.Tracks(old(fram.data[..]), old(fram.power), ws)
              && (written ==> fram.data[..] == After(old(fram.data[..]), ws, Total(ws)))
              && (fram.reliable ==> config == LoadedFrom(fram.crc, old(fram.data[..]), Net)
                                    && ws == NetStartWrites(fram.crc, old(fram.data[..]))
                                    && (written <==> Total(ws) <= old(fram.power)))
      ensures fram.reliable ==> ByCopies(fram.crc, old(fram.data[..]), Net, config)
      ensures OthersKept(old(fram.data[..]), fram.data[..], {Net})
    {
      hide Block, After, Fallback, Accepted, Image, PrimaryOf, BackupOf, Splice, ByCopies;
      LoadsIntact(fram.crc, fram.data[..], Net);
      ghost var mem, n := fram.data[..], fram.power;
      NetWhole(mem);
      first, second, written := true, true, true;
      fram.NothingTracked();
      NoWrites(mem);
      ChosenStart(fram.crc, mem);
      var ok, tmp;
      ok, tmp, first := ReadBlock(Primary(Net));
      if ok {
        config := tmp;
        return;
      }
      ok, tmp, second := ReadBlock(Backup(Net));
      if ok {
        config := tmp;
        written := fram.WriteBlock(Net, Primary(Net), config, mem, n, []);
        OneWrite(mem, FramStore.Write(Net, Primary(Net), Image(fram.crc, config)));
        return;
      }
      config := Fallback(Net);
      written := fram.WriteBoth(Net, config, mem, n, []);
      BothTotal(fram.crc, Net, config);
      assert [] + Both(fram.crc, Net, config) == Both(fram.crc, Net, config);
    }

    lemma NetWhole(mem: seq<byte>)
      requires |mem| == FRAM_SIZE
      ensures PrimaryOf(mem, Net) == Block(mem, Primary(Net), BlockSize(Net))
      ensures BackupOf(mem, Net) == Block(mem, Backup(Net), BlockSize(Net))
    {
    }

    /** net_config_save */
    method Save() returns (ok: bool)
      requires Valid()
      modifies this, fram.data, fram`power
      ensures Valid() && config == WithMagic(Net, old(config))
      ensures var ws := NetSaveWrites(fram.crc, config);
              && (ok ==> fram.data[..] == After(old(fram.data[..]), ws, Total(ws)))
              && (fram.reliable ==> fram.data[..] == After(old(fram.data[..]), ws, old(fram.power))
                                    && (ok <==> Total(ws) <= old(fram.power)))
      ensures OthersKept(old(fram.data[..]), fram.data[..], {Net})
    {
      hide After, Splice, WithMagic;
      ghost var mem, n := fram.data[..], fram.power;
      fram.NothingTracked();
      config := WithMagic(Net, config);
      BothTotal(fram.crc, Net, config);
      ok := fram.WriteBoth(Net, config, mem, n, []);
      assert [] + NetSaveWrites(fram.crc, config) == NetSaveWrites(fram.crc, config);
    }
  }

  // ------------------------------------------------------------ relay_cal.c

  class RelayCal {
    const fram: Fram
    var cal: seq<byte>           // g_cal
    var config: seq<byte>        // g_cfg
    var loaded: bool             // g_loaded

    constructor (fram: Fram, cal: seq<byte>, config: seq<byte>)
      ensures this.fram == fram && this.cal == cal && this.config == config && !loaded
    {
      this.fram, this.cal, this.config, loaded := fram, cal, config, false;
    }

    ghost predicate Valid()
      reads this, fram
    {
      fram.Valid() && |cal| == Size(CalData) && |config| == Size(CalConfig)
    }

    /** read_data_block, and read_cfg_block with the test of its magic number: a refused read is not noticed. */
    method ReadBlock(st: Store, addr: nat) returns (ok: bool, data: seq<byte>)
      requires Valid() && st != Net && (addr == Primary(st) || addr == Backup(st))
      ensures |data| == Size(st) && (ok ==> HasMagic(st, data))
      ensures var block := Block(fram.data[..], addr, BlockSize(st));
              fram.reliable ==> data == block[..Size(st)] && (ok <==> Accepted(fram.crc, st, block))
                                && (ok <==> ChecksumRight(fram.crc, st, block) && MagicRight(st, block))
    {
      hide Intact;
      AcceptedIsIntact(fram.crc, st, Block(fram.data[..], addr, BlockSize(st)));
      BothTests(fram.crc, st, Block(fram.data[..], addr, BlockSize(st)));
      var got, stored;
      got, data := fram.Read(addr, Size(st));
      got, stored := fram.Read(addr + Size(st), 4);
      ok := Checksum(fram.crc, data) == stored;
      if st == CalConfig {
        ok := ok && data[..4] == Word(CAL_MAGIC);
      }
      if fram.reliable {
        assert fram.data[addr..addr + BlockSize(st)][Size(st)..] == stored;
        assert fram.data[addr..addr + BlockSize(st)][..Size(st)] == data;
      }
    }

    /** fill_nominal */
    method FillNominal()
      modifies `cal
      ensures cal == NominalBytes()
    {
      hide Nominal, Word;
      cal := [];
      for dec := 0 to 6
        invariant cal == NominalWords(10 * dec)
      {
        for dig := 0 to 10
          invariant cal == NominalWords(10 * dec + dig)
        {
          assert (10 * dec + dig) / 10 == dec && (10 * dec + dig) % 10 == dig;
          cal := cal + Word(Nominal(dec, dig));
        }
      }
    }

    /** The fallback of relay_cal_init: a usable backup is read and its primary restored. */
    method RestoreCopy(st: Store, ghost mem: seq<byte>, ghost n: nat, ghost ws: seq<FramStore.Write>) returns (ok: bool, data: seq<byte>)
      requires Valid() && st != Net && fram.Tracks(mem, n, ws)
      modifies fram.data, fram`power
      ensures Valid() && |data| == Size(st) && (ok ==> HasMagic(st, data))
      ensures fram.reliable ==> data == BackupOf(old(fram.data[..]), st)[..Size(st)]
                                && (ok <==> Accepted(fram.crc, st, BackupOf(old(fram.data[..]), st)))
      ensures fram.Tracks(mem, n, ws + if ok then [FramStore.Write(st, Primary(st), Image(fram.crc, data))] else [])
      ensures OthersKept(old(fram.data[..]), fram.data[..], {st})
    {
      hide Block, After, Accepted, Image, Total, AllBlocks;
      ok, data := ReadBlock(st, Backup(st));
      if ok {
        var _ := fram.WriteBlock(st, Primary(st), data, mem, n, ws);
      } else {
        assert ws + [] == ws;
      }
    }

    /** relay_cal_init */
    method Init()
      requires Valid()
      modifies this, fram.data, fram`power
      ensures Valid() && HasMagic(CalConfig, config)
      ensures fram.reliable ==>
                && cal == LoadedFrom(fram.crc, old(fram.data[..]), CalData)
                && config == LoadedFrom(fram.crc, old(fram.data[..]), CalConfig)
                && (loaded <==> Accepted(fram.crc, CalData, PrimaryOf(old(fram.data[..]), CalData))
                                || Accepted(fram.crc, CalData, BackupOf(old(fram.data[..]), CalData)))
      ensures fram.reliable ==>
                && ByCopies(fram.crc, old(fram.data[..]), CalData, cal) && ByCopies(fram.crc, old(fram.data[..]), CalConfig, config)
                && (loaded <==> Intact(fram.crc, CalData, PrimaryOf(old(fram.data[..]), CalData))
                                || Intact(fram.crc, CalData, BackupOf(old(fram.data[..]), CalData)))
      ensures fram.Tracks(old(fram.data[..]), old(fram.power), CalStartWrites(fram.crc, old(fram.data[..])))
      ensures OthersKept(old(fram.data[..]), fram.data[..], {CalData, CalConfig})
    {
      hide PrimaryOf, BackupOf, Block, After, Fallback, Accepted, NominalBytes, Image, Both, Total, AllBlocks, ByCopies, Intact;
      ghost var mem, n, crc := fram.data[..], fram.power, fram.crc;
      Whole(mem);
      fram.NothingTracked();
      var dataOk, tmpData := ReadBlock(CalData, Primary(CalData));
      var cfgOk, tmpCfg := ReadBlock(CalConfig, Primary(CalConfig));
      ghost var ws := [];
      if !dataOk {
        dataOk, tmpData := RestoreCopy(CalData, mem, n, ws);
        ws := ws + if dataOk then [FramStore.Write(CalData, Primary(CalData), Image(crc, tmpData))] else [];
      }
      assert fram.reliable ==> ws == Restore(crc, mem, CalData);
      if !cfgOk {
        cfgOk, tmpCfg := RestoreCopy(CalConfig, mem, n, ws);
        ws := ws + if cfgOk then [FramStore.Write(CalConfig, Primary(CalConfig), Image(crc, tmpCfg))] else [];
      }
      assert fram.reliable ==> ws == Restore(crc, mem, CalData) + Restore(crc, mem, CalConfig);
      if dataOk { cal := tmpData; }
      if cfgOk { config := tmpCfg; }
      InitialiseMissing(dataOk, cfgOk, mem, n, ws);
      assert fram.reliable ==> ws + Initialise(crc, mem, CalData) + Initialise(crc, mem, CalConfig) == CalStartWrites(crc, mem);
      loaded := dataOk;
      LoadsIntact(crc, mem, CalData);
      LoadsIntact(crc, mem, CalConfig);
    }

    lemma Whole(mem: seq<byte>)
      requires |mem| == FRAM_SIZE
      ensures PrimaryOf(mem, CalData) == Block(mem, Primary(CalData), BlockSize(CalData))
      ensures PrimaryOf(mem, CalConfig) == Block(mem, Primary(CalConfig), BlockSize(CalConfig))
    {
    }

    /** The end of relay_cal_init: what could not be loaded gets its defaults, in both copies. */
    method InitialiseMissing(dataOk: bool, cfgOk: bool, ghost mem: seq<byte>, ghost n: nat, ghost ws: seq<FramStore.Write>)
      requires Valid() && fram.Tracks(mem, n, ws)
      requires fram.reliable ==>
                 && (dataOk <==> Accepted(fram.crc, CalData, PrimaryOf(mem, CalData)) || Accepted(fram.crc, CalData, BackupOf(mem, CalData)))
                 && (cfgOk <==> Accepted(fram.crc, CalConfig, PrimaryOf(mem, CalConfig)) || Accepted(fram.crc, CalConfig, BackupOf(mem, CalConfig)))
      modifies `cal, `config, fram.data, fram`power
      ensures Valid()
      ensures cal == (if dataOk then old(cal) else Fallback(CalData))
      ensures config == (if cfgOk then old(config) else Fallback(CalConfig))
      ensures fram.Tracks(mem, n, ws + Initialise(fram.crc, mem, CalData) + Initialise(fram.crc, mem, CalConfig))
      ensures OthersKept(old(fram.data[..]), fram.data[..], {CalData, CalConfig})
    {
      hide PrimaryOf, BackupOf, After, Fallback, Accepted, NominalBytes, Both, Total;
      ghost var now := ws;
      if !dataOk {
        FillNominal();
        NominalIsFallback();
        var _ := fram.WriteBoth(CalData, cal, mem, n, now);
        now := now + Both(fram.crc, CalData, cal);
      }
      assert fram.reliable ==> now == ws + Initialise(fram.crc, mem, CalData);
      if !cfgOk {
        config := Word(CAL_MAGIC) + [0, 0, 0, 0];
        ConfigFallback();
        var _ := fram.WriteBoth(CalConfig, config, mem, n, now);
        now := now + Both(fram.crc, CalConfig, config);
      }
      assert fram.reliable ==> now == ws + Initialise(fram.crc, mem, CalData) + Initialise(fram.crc, mem, CalConfig);
    }

    /** relay_cal_save */
    method Save() returns (ok: bool)
      requires Valid()
      modifies this, fram.data, fram`power
      ensures Valid() && cal == old(cal) && loaded == (old(loaded) || ok)
      ensures var ws := CalSaveWrites(fram.crc, cal, WithMagic(CalConfig, old(config)));
              && (ok ==> fram.data[..] == After(old(fram.data[..]), ws, Total(ws)) && config == WithMagic(CalConfig, old(config)))
              && (fram.reliable ==> fram.data[..] == After(old(fram.data[..]), ws, old(fram.power))
                                    && (ok <==> Total(ws) <= old(fram.power)))
      ensures OthersKept(old(fram.data[..]), fram.data[..], {CalData, CalConfig})
    {
      hide After, Splice, WithMagic, Both;
      ghost var mem, n := fram.data[..], fram.power;
      fram.NothingTracked();
      var present := fram.Ping();
      if !present {
        return false;
      }
      config := WithMagic(CalConfig, config);
      ok := fram.WriteBoth(CalData, cal, mem, n, []);
      ghost var mid := fram.data[..];
      ghost var first := Both(fram.crc, CalData, cal);
      assert [] + first == first;
      var more := fram.WriteBoth(CalConfig, config, mem, n, first);
      AfterBoth(mem, first, Both(fram.crc, CalConfig, config));
      BothTotal(fram.crc, CalData, cal);
      BothTotal(fram.crc, CalConfig, config);
      ok := ok && more;
      if ok {
        loaded := true;
      }
    }
  }

  lemma NoWrites(mem: seq<byte>)
    requires |mem| == FRAM_SIZE
    ensures After(mem, [], Total([])) == mem && Total([]) == 0
  {
  }

  lemma OneWrite(mem: seq<byte>, w: FramStore.Write)
    requires |mem| == FRAM_SIZE && IsBlock(w)
    ensures [] + [w] == [w] && Total([w]) == |w.bytes| && After(mem, [w], Total([w])) == Splice(mem, w.addr, w.bytes)
  {
    hide Splice;
    NoWrites(mem);
    AfterOneMore(mem, [], w, |w.bytes|);
    assert w.bytes[..|w.bytes|] == w.bytes;
    BlocksFit(mem, []);
    assert [] + [w] == [w];
  }

  lemma BothTests(crc: seq<byte> -> nat, st: Store, block: seq<byte>)
    requires |block| == BlockSize(st)
    ensures Intact(crc, st, block) <==> ChecksumRight(crc, st, block) && MagicRight(st, block)
  {
  }

  lemma NominalIsFallback()
    ensures Fallback(CalData) == NominalBytes()
  {
  }

  lemma ConfigFallback()
    ensures Fallback(CalConfig) == Word(CAL_MAGIC) + [0, 0, 0, 0]
  {
  }

  /** Complete runs one after the other are a complete run. */
  lemma {:induction false} AfterBoth(mem: seq<byte>, first: seq<FramStore.Write>, second: seq<FramStore.Write>)
    requires |mem| == FRAM_SIZE && AllBlocks(first) && AllBlocks(second)
    ensures AllBlocks(first + second) && Total(first + second) == Total(first) + Total(second)
    ensures After(After(mem, first, Total(first)), second, Total(second)) == After(mem, first + second, Total(first + second))
    decreases |first|
  {
    hide Splice;
    if first == [] {
      assert first + second == second;
      BlocksFit(mem, first);
    } else {
      BlocksFit(mem, first + second);
      BlocksFit(mem, first);
      var head := first[0];
      assert IsBlock(head);
      assert (first + second)[1..] == first[1..] + second && (first + second)[0] == head;
      AfterBoth(Splice(mem, head.addr, head.bytes), first[1..], second);
    }
  }
}