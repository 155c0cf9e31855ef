/** An EEPROM kept in memory and written back to the microcontroller's flash on request. */
module FlashAsEeprom {
  import opened Words
  import opened NorFlash
  import opened FlashStorage

  const EEPROM_SIZE := 1024

  /** The bytes, then the flag that tells they were ever written. */
  const STRUCT_SIZE := EEPROM_SIZE + 1

  const TRUE_BYTE: byte := 1

  function Blank(): (r: seq<byte>)
    ensures |r| == EEPROM_SIZE
  {
    seq(EEPROM_SIZE, _ => ERASED)
  }

  /** What the flash holds: the bytes, or all erased if the flag is clear. */
  function DurableOf(storage: FlashClass): (r: seq<byte>)
    requires storage.size == STRUCT_SIZE && storage.Ok()
    reads storage.nvm
    ensures |r| == EEPROM_SIZE
  {
    if storage.Read()[EEPROM_SIZE] != 0 then storage.Read()[..EEPROM_SIZE] else Blank()
  }

  class EepromClass {
    const storage: FlashClass
    const data: array<byte>
    var valid: bool
    var initialized: bool
    var dirty: bool

    /** Power-up: whatever was in memory is gone, the flash is not. */
    constructor (storage: FlashClass)
      requires storage.size == STRUCT_SIZE && storage.Ok()
      ensures this.storage == storage && Valid() && fresh(data)
      ensures Image() == Durable()
    {
      this.storage := storage;
      data := new byte[EEPROM_SIZE](_ => 0);
      valid, initialized, dirty := false, false, false;
    }

    /** What a power-up would find. */
    function Durable(): (r: seq<byte>)
      requires storage.size == STRUCT_SIZE && storage.Ok()
      reads storage.nvm
      ensures |r| == EEPROM_SIZE
    {
      DurableOf(storage)
    }

    ghost predicate Valid()
      reads this, data, storage.nvm
    {
      && storage.size == STRUCT_SIZE && storage.Ok() && data.Length == EEPROM_SIZE
      && (dirty ==> initialized)
      && (initialized && !dirty ==> data[..] == Durable())
      && (initialized && !dirty ==> valid == (storage.Read()[EEPROM_SIZE] != 0))
    }

    /** What reads see. */
    ghost function Image(): (r: seq<byte>)
      requires Valid()
      reads this, data, storage.nvm
      ensures |r| == EEPROM_SIZE
    {
      if initialized then data[..] else Durable()
    }

    method Init()
      requires Valid() && !initialized
      modifies this, data
      ensures Valid() && initialized && !dirty && Image() == old(Image())
      ensures valid == (storage.Read()[EEPROM_SIZE] != 0)
      ensures forall i :: 0 <= i < EEPROM_SIZE ==> data[i] == if valid then storage.Read()[i] else 0xFF
    {
      var eeprom := storage.Read();
      forall i | 0 <= i < EEPROM_SIZE {
        data[i] := eeprom[i];
      }
      valid := eeprom[EEPROM_SIZE] != 0;
      if !valid {
        forall i | 0 <= i < EEPROM_SIZE {
          data[i] := ERASED;
        }
      }
      assert data[..] == Durable();
      initialized := true;
    }

    method Read(address: nat) returns (r: byte)
      requires Valid() && address < EEPROM_SIZE
      modifies this, data
      ensures Valid() && Image() == old(Image()) && r == Image()[address]
    {
      if !initialized {
        Init();
      }
      return data[address];
    }

    method Update(address: nat, value: byte)
      requires Valid() && address < EEPROM_SIZE
      modifies this, data
      ensures Valid() && Image() == old(Image())[address := value]
      ensures dirty <==> old(dirty) || old(Image())[address] != value
    {
      if !initialized {
        Init();
      }
      if data[address] != value {
        dirty := true;
        data[address] := value;
      }
    }

    method Write(address: nat, value: byte)
      requires Valid() && address < EEPROM_SIZE
      modifies this, data
      ensures Valid() && Image() == old(Image())[address := value]
    {
      Update(address, value);
    }

    /** Whether anything was ever committed. */
    method IsValid() returns (r: bool)
      requires Valid()
      modifies this, data
      ensures Valid() && Image() == old(Image()) && r == valid
      ensures !dirty ==> r == (storage.Read()[EEPROM_SIZE] != 0)
    {
      if !initialized {
        Init();
      }
      return valid;
    }

    /** Writes the image back if it may differ from what is in flash; beyond is what follows the
        struct in memory. */
    method Commit(beyond: seq<byte>)
      requires Valid() && |beyond| == WORD - 1
      modifies this, data, storage.nvm
      ensures Valid() && Image() == old(Image()) && Durable() == Image()
      ensures !old(dirty) ==> storage.nvm.cells == old(storage.nvm.cells)
    {
      if !initialized {
        Init();
      }
      if dirty {
        valid := true;
        storage.Store(data[..] + [TRUE_BYTE], beyond);
        assert storage.Read()[..EEPROM_SIZE] == data[..];
      }
    }
  }

  // ---- whole runs ----

  /** What reads see and what a power-up would find. */
  datatype Pair = Pair(image: seq<byte>, durable: seq<byte>)

  datatype Op = ReadOp | UpdateOp(a: nat, v: byte) | CommitOp | RebootOp

  predicate InRange(ops: seq<Op>) {
    forall i :: 0 <= i < |ops| ==> ops[i].UpdateOp? ==> ops[i].a < EEPROM_SIZE
  }

  predicate Shaped(p: Pair) { |p.image| == |p.durable| == EEPROM_SIZE }

  /** What the contracts above say each operation does. */
  function Step(p: Pair, op: Op): (p': Pair)
    requires Shaped(p) && (op.UpdateOp? ==> op.a < EEPROM_SIZE)
    ensures Shaped(p')
  {
    match op
    case ReadOp => p
    case UpdateOp(a, v) => p.(image := p.image[a := v])
    case CommitOp => p.(durable := p.image)
    case RebootOp => p.(image := p.durable)
  }

  function Run(p: Pair, ops: seq<Op>): (p': Pair)
    requires Shaped(p) && InRange(ops)
    ensures Shaped(p')
    decreases ops
  {
    if ops == [] then p else Run(Step(p, ops[0]), ops[1..])
  }

  lemma {:induction false} RunSplits(p: Pair, a: seq<Op>, b: seq<Op>)
    requires Shaped(p) && InRange(a) && InRange(b) && InRange(a + b)
    ensures Run(p, a + b) == Run(Run(p, a), b)
    decreases a
  {
    if a == [] {
      assert a + b == b;
    } else {
      assert (a + b)[1..] == a[1..] + b;
      RunSplits(Step(p, a[0]), a[1..], b);
    }
  }

  lemma {:induction false} DurableKept(p: Pair, ops: seq<Op>)
    requires Shaped(p) && InRange(ops) && CommitOp !in ops
    ensures Run(p, ops).durable == p.durable
    decreases ops
  {
    if ops == [] {
    } else {
      DurableKept(Step(p, ops[0]), ops[1..]);
    }
  }

  /** After a reboot every byte reads as it did at the last commit, or as at the beginning if there was none. */
  lemma RebootRestores(p: Pair, before: seq<Op>, after: seq<Op>)
    requires Shaped(p) && InRange(before) && InRange(after) && CommitOp !in after
    requires InRange(before + [CommitOp]) && InRange(before + [CommitOp] + after)
    ensures Step(Run(p, before + [CommitOp] + after), RebootOp).image == Run(p, before).image
    ensures Step(Run(p, after), RebootOp).image == p.durable
  {
    RunSplits(p, before, [CommitOp]);
    RunSplits(p, before + [CommitOp], after);
    assert [CommitOp][1..] == [];
    assert Run(Run(p, before), [CommitOp]) == Step(Run(p, before), CommitOp);
    DurableKept(Run(p, before + [CommitOp]), after);
    DurableKept(p, after);
  }

  /** Any run on the real thing, rebooted as often as the run says, ends where the pair ends. */
  method Replay(storage: FlashClass, ops: seq<Op>, beyond: seq<byte>) returns (eeprom: EepromClass)
    requires storage.size == STRUCT_SIZE && storage.Ok() && InRange(ops) && |beyond| == WORD - 1
    modifies storage.nvm
    ensures eeprom.storage == storage && eeprom.Valid()
    ensures Pair(eeprom.Image(), eeprom.Durable())
         == Run(Pair(old(DurableOf(storage)), old(DurableOf(storage))), ops)
  {
    ghost var start := Pair(DurableOf(storage), DurableOf(storage));
    eeprom := new EepromClass(storage);
    for i := 0 to |ops|
      invariant fresh(eeprom) && fresh(eeprom.data) && eeprom.storage == storage && eeprom.Valid()
      invariant Run(Pair(eeprom.Image(), eeprom.Durable()), ops[i..]) == Run(start, ops)
    {
      assert ops[i..][0] == ops[i] && ops[i..][1..] == ops[i + 1..];
      match ops[i]
      case ReadOp =>
        var b := eeprom.Read(0);
      case UpdateOp(a, v) =>
        eeprom.Update(a, v);
      case CommitOp =>
        eeprom.Commit(beyond);
      case RebootOp =>
        eeprom := new EepromClass(storage);
    }
    assert ops[|ops|..] == [];
  }
}
