/** The driver itself: the calibration struct, B5 and the static state, updated in place. */
module Bmp180Driver {
  import opened CInt
  import opened Bits
  import opened Bmp180Arithmetic
  import opened Bmp180Calibration
  import opened Bmp180System

  datatype Reading<T> = NotWritten | Written(value: T)

  class Bmp180 {
    var cal: Calibration
    var b5: int16
    var state: State
    var sensor: Sensor
    var log: seq<Event>

    /** A driver in its initial state; cal.B5 starts at 0 with the rest of the static struct. */
    constructor (cal: Calibration, sensor: Sensor)
      ensures this.cal == cal && this.b5 == 0 && this.state == TStart && this.sensor == sensor && this.log == []
    {
      this.cal := cal;
      this.b5 := 0;
      this.state := TStart;
      this.sensor := sensor;
      this.log := [];
    }

    ghost function View(): System
      reads this
    {
      System(FormulasOf(cal), b5, state, sensor, log)
    }

    /** Copies the 22 EEPROM bytes over the struct and swaps every field. B5 lies behind the 22 bytes:
        it is not read, but it is swapped too. */
    method DumpCalibrationData(prom: seq<uint8>)
      requires |prom| == 22
      modifies this
      ensures cal == Decode(prom)
      ensures b5 == I16(Swap16(old(b5)))
      ensures state == old(state) && sensor == old(sensor) && log == old(log)
    {
      forall i: nat | i < 11
        ensures Swap16(LittleEndian(prom, i)) == BigEndian(prom, i)
        ensures Swap16(I16(LittleEndian(prom, i))) == BigEndian(prom, i)
      {
        SwapOfLoad(prom[2 * i], prom[2 * i + 1]);
      }
      cal := Calibration(
        I16(LittleEndian(prom, 0)), I16(LittleEndian(prom, 1)), I16(LittleEndian(prom, 2)),
        LittleEndian(prom, 3), LittleEndian(prom, 4), LittleEndian(prom, 5),
        I16(LittleEndian(prom, 6)), I16(LittleEndian(prom, 7)),
        I16(LittleEndian(prom, 8)), I16(LittleEndian(prom, 9)), I16(LittleEndian(prom, 10)));
      cal := cal.(AC1 := I16(Swap16(cal.AC1)));
      cal := cal.(AC2 := I16(Swap16(cal.AC2)));
      cal := cal.(AC3 := I16(Swap16(cal.AC3)));
      cal := cal.(AC4 := Swap16(cal.AC4));
      cal := cal.(AC5 := Swap16(cal.AC5));
      cal := cal.(AC6 := Swap16(cal.AC6));
      cal := cal.(B1 := I16(Swap16(cal.B1)));
      cal := cal.(B2 := I16(Swap16(cal.B2)));
      b5 := I16(Swap16(b5));
      cal := cal.(MB := I16(Swap16(cal.MB)));
      cal := cal.(MC := I16(Swap16(cal.MC)));
      cal := cal.(MD := I16(Swap16(cal.MD)));
    }

    method StartConversion(cmd: uint8)
      modifies this
      ensures sensor == old(sensor).(ctrl := cmd)
      ensures log == old(log) + [Started(cmd, old(sensor).ctrl / 0x20 % 2 == 1)]
      ensures cal == old(cal) && b5 == old(b5) && state == old(state)
    {
      log := log + [Started(cmd, sensor.Busy())];
      sensor := sensor.Write(cmd);
    }

    method IsConversionBusy() returns (busy: bool)
      ensures busy <==> sensor.ctrl / 0x20 % 2 == 1
    {
      var reg1 := sensor.ctrl;
      busy := reg1 / 0x20 % 2 != 0;
    }

    /** bmp180_read_temperature: stores B5 for the pressure reading and returns the temperature. */
    method ReadTemperature() returns (t: int)
      modifies this
      ensures var raw := RawTemperature(old(sensor).msb, old(sensor).lsb);
              raw == 0x100 * old(sensor).msb as int + old(sensor).lsb as int &&
              b5 == MachineB5(old(cal), raw) && t == MachineTemperature(old(cal), raw) &&
              log == old(log) + [TemperatureRead(raw, b5, t)]
      ensures cal == old(cal) && state == old(state) && sensor == old(sensor)
    {
      var rt := RawTemperature(sensor.msb, sensor.lsb);
      var x1 := I32(I32(rt - cal.AC6) * cal.AC5) / 0x8000;
      assert x1 == MachineX1(cal, rt);
      var x2 := Quot(cal.MC * 0x800, I32(x1 + cal.MD));
      assert x2 == MachineX2(cal, x1);
      b5 := I16(I32(x1 + x2));
      assert b5 == MachineB5(cal, rt);
      t := (b5 + 8) / 16;
      t := Quot(t, 10);
      log := log + [TemperatureRead(rt, b5, t)];
    }

    /** bmp180_read_pressure: uses the B5 of the last temperature reading. */
    method ReadPressure() returns (p: int32)
      modifies this
      ensures var oss := OssOf(old(sensor).ctrl);
              var raw := RawPressure(old(sensor).msb, old(sensor).lsb, old(sensor).xlsb, oss);
              p == MachineReading(old(cal), old(b5), raw, oss) &&
              log == old(log) + [PressureRead(raw, oss, old(b5), p)]
      ensures OssOf(sensor.ctrl) == sensor.ctrl / 0x40
      ensures RawPressure(sensor.msb, sensor.lsb, sensor.xlsb, sensor.ctrl / 0x40)
           == (sensor.msb as int * 0x1_0000 + sensor.lsb as int * 0x100 + sensor.xlsb as int) / Pow2(8 - sensor.ctrl / 0x40)
      ensures cal == old(cal) && b5 == old(b5) && state == old(state) && sensor == old(sensor)
    {
      var oss := OssOf(sensor.ctrl);
      var rp := RawPressure(sensor.msb, sensor.lsb, sensor.xlsb, oss);
      RawPressureByBits(sensor.msb, sensor.lsb, sensor.xlsb, oss);
      p := Compensate(rp, oss);
      log := log + [PressureRead(rp, oss, b5, p)];
    }

    /** Its computation, up to the quotient and from there. */
    method Compensate(rp: int, oss: nat) returns (p: int32)
      requires oss < 4
      ensures p == MachineReading(cal, b5, rp, oss)
    {
      var result := Quotient(rp, oss);
      ghost var quotient := result;
      var x1 := I32((result / 0x100) * (result / 0x100));
      x1 := I32(x1 * 3038) / 0x1_0000;
      var x2 := I32(-7357 * result) / 0x1_0000;
      result := I32(result + I32(x1 + x2 + 3791) / 16);
      p := result;
      assert p == MachinePressure(quotient);
    }

    method Quotient(rp: int, oss: nat) returns (result: int32)
      requires oss < 4
      ensures result == MachineResult(cal, b5, rp, oss)
    {
      var b6 := b5 - 4000;
      var square := I32(b6 * b6) / 0x1000;

      var x1 := I32(cal.B2 * square) / 0x800;
      var x2 := I32(cal.AC2 * b6) / 0x800;
      var x3 := I32(x1 + x2);
      var b3 := I32(I32(I32(cal.AC1 * 4 + x3) * OssScale(oss)) + 2) / 4;
      assert b3 == MachineB3(cal, b5, oss);

      x1 := I32(cal.AC3 * b6) / 0x2000;
      x2 := I32(cal.B1 * square) / 0x1_0000;
      x3 := I32(x1 + x2 + 2) / 4;
      var b4: uint32 := U32(cal.AC4 * U32(x3 + 0x8000)) / 0x8000;
      assert b4 == MachineB4(cal, b5);
      var b7: uint32 := U32(U32(rp - b3) * (50000 / OssScale(oss)));

      if b7 < 0x8000_0000 {
        result := I32(UQuot(U32(b7 * 2), b4));
      } else {
        result := I32(U32(UQuot(b7, b4) * 2));
      }
    }

    /** One call of bmp180_conversion_process. */
    method ConversionProcess() returns (ret: int, pressure: Reading<int32>, temperature: Reading<int>)
      modifies this
      ensures View() == Call(old(View()))
      ensures ret == if old(state) == PComplete then 0 else 1
      ensures pressure.Written? <==> ret == 0
      ensures temperature.Written? <==> old(state) == TComplete
      ensures pressure.Written? ==> |log| >= 2 && log[|log| - 2].PressureRead? && log[|log| - 2].p == pressure.value
      ensures temperature.Written? ==> |log| >= 1 && log[|log| - 1].TemperatureRead? && log[|log| - 1].t == temperature.value
    {
      ret, pressure, temperature := 1, NotWritten, NotWritten;
      match state {
        case TStart =>
          StartConversion(BMP180_T_MEASURE);
          state := TWait;
        case TWait =>
          var busy := IsConversionBusy();
          if !busy {
            state := TComplete;
          }
        case TComplete =>
          var t := ReadTemperature();
          temperature := Written(t);
          state := PStart;
        case PStart =>
          StartConversion(BMP180_P3_MEASURE);
          state := PWait;
        case PWait =>
          var busy := IsConversionBusy();
          if !busy {
            state := PComplete;
          }
        case PComplete =>
          var p := ReadPressure();
          pressure := Written(p);
          log := log + [Returned];
          state := TStart;
          ret := 0;
      }
    }
  }
}
