/**
 Registers of a serial device: how wide their data is, and the state the poller and
 the readers keep for each of them.
 */
module Registers {
  import opened Common

  datatype RegisterFormat =
    | U8 | S8 | U16 | S16 | S24 | U24 | U32 | S32 | S64 | U64
    | Bcd8 | Bcd16 | Bcd24 | Bcd32 | Float | Double | Char8 | String | String8

  /** Width of a format in bytes; the width of a string comes from the configuration. */
  function RegisterFormatByteWidth(format: RegisterFormat): nat {
    match format
    case String | String8 => 0
    case S64 | U64 | Double => 8
    case U32 | S32 | Bcd32 | Float => 4
    case U24 | S24 | Bcd24 => 3
    case U16 | S16 | Bcd16 => 2
    case U8 | S8 | Bcd8 | Char8 => 1
  }

  datatype WordOrder = BigEndianWords | LittleEndianWords
  datatype ByteOrder = BigEndianBytes | LittleEndianBytes
  datatype AccessType = ReadWrite | ReadOnly | WriteOnly
  datatype RegisterType = Holding | Input | Coil | Discrete | HoldingSingle | HoldingMulti

  /** A string is a sequence of bytes here; encodings are not modelled. */
  datatype RegisterValue = Undefined | Number(number: Value) | Text(text: seq<bv8>)

  /** A data address of Modbus. */
  type Address = a: int | 0 <= a < 0x1_0000

  datatype RegisterConfig = RegisterConfig(
    typ: RegisterType,
    format: RegisterFormat,
    byteWidth: nat,
    address: Address,
    writeAddress: Address,
    dataOffset: nat,
    dataWidth: nat,
    accessType: AccessType,
    wordOrder: WordOrder,
    byteOrder: ByteOrder,
    readPeriod: Option<int>,
    readRateLimit: Option<int>,
    errorValue: Option<RegisterValue>,
    unsupportedValue: Option<RegisterValue>)
  {
    predicate IsString() {
      format == String || format == String8
    }

    /** Width of the data in bits. */
    function DataWidth(): nat {
      if dataWidth != 0 then dataWidth else byteWidth * 8
    }

    predicate IsPartial() {
      dataWidth != 0
    }

    predicate IsHighPriority() {
      readPeriod.Some?
    }

    /** Width in 16-bit words, truncated to the eight bits the source keeps. */
    function WordWidth(): nat {
      if IsString() then DataWidth() / 8 % 0x100
      else
        var totalBits := Max(byteWidth * 8, dataOffset + DataWidth());
        (totalBits / 16 + if totalBits % 16 != 0 then 1 else 0) % 0x100
    }

    /** The width is that of the format; the rest is what the constructor of the source checks. */
    predicate Constructed() {
      && byteWidth == RegisterFormatByteWidth(format)
      && (IsString() || dataOffset < byteWidth * 8)
    }

    predicate IsSingleBit() {
      typ == Coil || typ == Discrete
    }

    predicate IsHolding() {
      typ == Holding || typ == HoldingSingle || typ == HoldingMulti
    }
  }

  /** The data of a number lies inside its words, and words are not wasted. */
  lemma DataFitsWords(c: RegisterConfig)
    requires !c.IsString() && c.Constructed() && c.dataOffset + c.DataWidth() <= 4080
    ensures c.dataOffset + c.DataWidth() <= 16 * c.WordWidth()
    ensures 1 <= c.WordWidth()
    ensures 16 * c.WordWidth() < Max(c.byteWidth * 8, c.dataOffset + c.DataWidth()) + 16
  {
  }

  datatype Availability = Unknown | Available | Unavailable

  datatype DeviceConfig = DeviceConfig(
    maxRegHole: nat,
    maxBitHole: nat,
    maxReadRegisters: int,
    minReadRegisters: nat,
    requestDelay: nat,
    frameTimeout: nat,
    minRequestInterval: nat,
    continuePollingOnIllegalModbusException: bool)

  /** What is known of a device while one of its ranges is built. */
  datatype DeviceView = DeviceView(
    id: nat,
    config: DeviceConfig,
    supportsHoles: bool,
    continuousRead: bool,
    forceFrameTimeout: bool)

  class Device {
    const id: nat
    const config: DeviceConfig
    const isWb: bool
    var supportsHoles: bool
    var continuousRead: bool
    var forceFrameTimeout: bool
    var lastReadTime: int

    constructor (id: nat, config: DeviceConfig, isWb: bool)
      ensures this.id == id && this.config == config && this.isWb == isWb
      ensures supportsHoles && !continuousRead && !forceFrameTimeout && lastReadTime == 0
    {
      this.id, this.config, this.isWb := id, config, isWb;
      supportsHoles, continuousRead, forceFrameTimeout, lastReadTime := true, false, false, 0;
    }

    function View(): DeviceView
      reads this
    {
      DeviceView(id, config, supportsHoles, continuousRead, forceFrameTimeout)
    }
  }

  class Register {
    const device: Device
    const config: RegisterConfig
    var available: Availability
    var value: RegisterValue
    var readError: bool
    var supported: bool
    var excludedFromPolling: bool

    constructor (device: Device, config: RegisterConfig)
      ensures this.device == device && this.config == config
      ensures available == Unknown && value == Undefined && !readError && supported && !excludedFromPolling
    {
      this.device, this.config := device, config;
      available, value, readError, supported, excludedFromPolling := Unknown, Undefined, false, true, false;
    }

    /** An unavailable register is taken out of polling. */
    method SetAvailable(a: Availability)
      modifies this
      ensures available == a
      ensures excludedFromPolling == (a == Unavailable || old(excludedFromPolling))
      ensures value == old(value) && readError == old(readError) && supported == old(supported)
    {
      available := a;
      if a == Unavailable {
        excludedFromPolling := true;
      }
    }

    /** The received value decides whether the register is available and whether it is in error. */
    method SetValue(v: RegisterValue)
      modifies this
      ensures value == v && supported == old(supported)
      ensures available == if config.unsupportedValue == Some(v) then Unavailable else Available
      ensures excludedFromPolling == (config.unsupportedValue == Some(v) || old(excludedFromPolling))
      ensures readError ==
        if config.unsupportedValue == Some(v) || config.errorValue == Some(v) then true
        else old(readError) && !supported
    {
      value := v;
      if config.unsupportedValue == Some(v) {
        readError := true;
        SetAvailable(Unavailable);
        return;
      }
      SetAvailable(Available);
      if config.errorValue == Some(v) {
        readError := true;
      } else if supported {
        readError := false;
      }
    }
  }
}
