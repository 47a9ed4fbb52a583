/** The STM32F407 memory map: bus base addresses and the base address of each peripheral
    (drivers-cpp Memory_map.h, with the device numbers of Peripherals.h). */
module MemoryMap {

  const FlashBase: int := 0x0800_0000
  const SramBase: int := 0x2000_0000
  const PeripheralBase: int := 0x4000_0000

  const Apb1Base: int := PeripheralBase + 0x0_0000
  const Apb2Base: int := PeripheralBase + 0x1_0000
  const Ahb1Base: int := PeripheralBase + 0x2_0000

  /** Each device occupies a 1 KiB slot on its bus. */
  const DeviceStride: int := 0x400

  datatype Ahb1Device = GpioA | GpioB | GpioC | GpioD | GpioE | GpioF | GpioG | GpioH | GpioI

  datatype Apb1Device =
    | Timer2 | Timer3 | Timer4 | Timer5 | Timer6 | Timer7 | Timer12 | Timer13 | Timer14
    | Spi2 | Spi3 | Usart2 | Usart3 | Usart4 | Usart5 | I2c1 | I2c2 | I2c3

  datatype Apb2Device =
    | Timer1 | Timer8 | Usart1 | Usart6 | Adc1 | Adc2 | Adc3 | Timer9 | Timer10 | Timer11

  /** The enumerator values of `AHB1_Device`. */
  function Ahb1Number(d: Ahb1Device): (n: nat)
    ensures n <= 8
  {
    match d
    case GpioA => 0 case GpioB => 1 case GpioC => 2 case GpioD => 3 case GpioE => 4
    case GpioF => 5 case GpioG => 6 case GpioH => 7 case GpioI => 8
  }

  /** The enumerator values of `APB1_Device`. */
  function Apb1Number(d: Apb1Device): (n: nat)
    ensures n <= 23
  {
    match d
    case Timer2 => 0 case Timer3 => 1 case Timer4 => 2 case Timer5 => 3 case Timer6 => 4
    case Timer7 => 5 case Timer12 => 6 case Timer13 => 7 case Timer14 => 8
    case Spi2 => 14 case Spi3 => 15 case Usart2 => 17 case Usart3 => 18 case Usart4 => 19
    case Usart5 => 20 case I2c1 => 21 case I2c2 => 22 case I2c3 => 23
  }

  /** The enumerator values of `APB2_Device`. */
  function Apb2Number(d: Apb2Device): (n: nat)
    ensures n <= 18
  {
    match d
    case Timer1 => 0 case Timer8 => 1 case Usart1 => 4 case Usart6 => 5 case Adc1 => 8
    case Adc2 => 9 case Adc3 => 10 case Timer9 => 16 case Timer10 => 17 case Timer11 => 18
  }

  /** `device_base_address` for an AHB1 device: the slot of the device on the AHB1 bus. */
  function Ahb1Address(d: Ahb1Device): (a: int)
    ensures Ahb1Base <= a < Ahb1Base + 0x1_0000 && (a - Ahb1Base) % DeviceStride == 0
    ensures (a - Ahb1Base) / DeviceStride == Ahb1Number(d)
  {
    Ahb1Base + DeviceStride * Ahb1Number(d)
  }

  /** `device_base_address` for an APB1 device. */
  function Apb1Address(d: Apb1Device): (a: int)
    ensures Apb1Base <= a < Apb2Base && (a - Apb1Base) % DeviceStride == 0
    ensures (a - Apb1Base) / DeviceStride == Apb1Number(d)
  {
    Apb1Base + DeviceStride * Apb1Number(d)
  }

  /** `device_base_address` for an APB2 device. */
  function Apb2Address(d: Apb2Device): (a: int)
    ensures Apb2Base <= a < Ahb1Base && (a - Apb2Base) % DeviceStride == 0
    ensures (a - Apb2Base) / DeviceStride == Apb2Number(d)
  {
    Apb2Base + DeviceStride * Apb2Number(d)
  }

  /** The bus bases are the peripheral base plus 0, 64 KiB and 128 KiB. */
  lemma BusBases()
    ensures Apb1Base == 0x4000_0000 && Apb2Base == 0x4001_0000 && Ahb1Base == 0x4002_0000
    ensures FlashBase < SramBase < PeripheralBase
  {
  }

  /** Within a bus, the address grows strictly with the device number, one slot per step;
      different devices therefore never share a base address. */
  lemma AddressesIncrease(d1: Apb1Device, d2: Apb1Device, e1: Apb2Device, e2: Apb2Device,
                          g1: Ahb1Device, g2: Ahb1Device)
    ensures Apb1Address(d2) - Apb1Address(d1) == DeviceStride * (Apb1Number(d2) - Apb1Number(d1))
    ensures Apb1Number(d1) < Apb1Number(d2) <==> Apb1Address(d1) < Apb1Address(d2)
    ensures Apb2Number(e1) < Apb2Number(e2) <==> Apb2Address(e1) < Apb2Address(e2)
    ensures Ahb1Number(g1) < Ahb1Number(g2) <==> Ahb1Address(g1) < Ahb1Address(g2)
    ensures d1 != d2 ==> Apb1Address(d1) != Apb1Address(d2)
    ensures e1 != e2 ==> Apb2Address(e1) != Apb2Address(e2)
    ensures g1 != g2 ==> Ahb1Address(g1) != Ahb1Address(g2)
  {
  }

  /** USART3 sits at 0x40004800, the register address the USART driver hard-codes. */
  lemma Usart3Address()
    ensures Apb1Address(Usart3) == 0x4000_4800
  {
  }

  /** GPIO port D sits at 0x40020C00. */
  lemma GpioDAddress()
    ensures Ahb1Address(GpioD) == 0x4002_0C00
  {
  }

  /** Every base address is a valid `uint32_t`, above the peripheral base. */
  lemma AddressesFitWord(d: Apb1Device, e: Apb2Device, g: Ahb1Device)
    ensures PeripheralBase <= Apb1Address(d) < 0x1_0000_0000
    ensures PeripheralBase <= Apb2Address(e) < 0x1_0000_0000
    ensures PeripheralBase <= Ahb1Address(g) < 0x1_0000_0000
  {
  }
}
