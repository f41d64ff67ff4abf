/** The rental calculator of OOPConsole2/Program.cs. `Car` and `Motorcycle`
    differ only in their fixed hourly rate, so one class carries the kind and
    the rate. C# `int` is 32 bits and its multiplication wraps silently. */
module Rental {

  /** The range of C# `int`. */
  predicate InInt32(x: int)
  {
    -0x8000_0000 <= x < 0x8000_0000
  }

  /** C# `int`. */
  newtype Int32 = x: int | InInt32(x)

  const Modulus: int := 0x1_0000_0000

  /** Unchecked 32-bit arithmetic: the `int` congruent to `x` modulo 2^32. */
  function Wrap(x: int): (r: Int32)
    ensures r as int % Modulus == x % Modulus
    ensures InInt32(x) ==> r as int == x
  {
    var m := x % Modulus;
    if m < 0x8000_0000 then m as Int32 else (m - Modulus) as Int32
  }

  datatype Kind = Car | Motorcycle

  /** The `rate` field initializer of each subclass. */
  function RateOf(kind: Kind): Int32
  {
    match kind
    case Car => 1300
    case Motorcycle => 500
  }

  /** The most hours whose cost still fits in an `int` at this kind's rate. */
  function MaxHours(kind: Kind): (h: Int32)
    ensures 0 < h
    ensures h as int * RateOf(kind) as int <= 0x7FFF_FFFF < (h as int + 1) * RateOf(kind) as int
  {
    match kind
    case Car => 1651910
    case Motorcycle => 4294967
  }

  class Vehicle {
    /** Which subclass this object is. */
    const kind: Kind
    /** The subclass's fixed hourly rate. */
    const rate: Int32
    /** `null` until `SetData` is called; the empty string stands in for it. */
    var brand: string
    var hoursRented: Int32

    /** `new Car()` or `new Motorcycle()`. */
    constructor (kind: Kind)
      ensures this.kind == kind && rate == RateOf(kind)
      ensures brand == "" && hoursRented == 0
    {
      this.kind := kind;
      rate := RateOf(kind);
      brand := "";
      hoursRented := 0;
    }

    /** `SetData`: overwrites the brand and the hours; kind and rate are constants. */
    method SetData(brand: string, hoursRented: Int32)
      modifies this
      ensures this.brand == brand && this.hoursRented == hoursRented
    {
      this.brand := brand;
      this.hoursRented := hoursRented;
    }

    /** `CalculateRental`: hours times rate in 32-bit arithmetic; it reads the
        fields and changes none. */
    function CalculateRental(): (r: Int32)
      reads this
      ensures r as int % Modulus == (hoursRented as int * rate as int) % Modulus
      ensures InInt32(hoursRented as int * rate as int) ==> r as int == hoursRented as int * rate as int
      ensures hoursRented == 0 ==> r == 0
    {
      Wrap(hoursRented as int * rate as int)
    }
  }

  /** Within the range where no wrap-around happens, the exact cost per kind:
      1300 per hour for a car, 500 for a motorcycle. */
  lemma RentalAtRate(v: Vehicle)
    requires v.rate == RateOf(v.kind)
    requires 0 <= v.hoursRented <= MaxHours(v.kind)
    ensures v.kind == Car ==> v.CalculateRental() as int == v.hoursRented as int * 1300
    ensures v.kind == Motorcycle ==> v.CalculateRental() as int == v.hoursRented as int * 500
    ensures v.CalculateRental() >= 0
  {
  }

  /** Cost does not decrease with the hours, for vehicles of one kind within the bound. */
  lemma RentalMonotone(v: Vehicle, w: Vehicle)
    requires v.kind == w.kind && v.rate == RateOf(v.kind) && w.rate == RateOf(w.kind)
    requires 0 <= v.hoursRented <= w.hoursRented <= MaxHours(w.kind)
    ensures v.CalculateRental() <= w.CalculateRental()
  {
  }

  /** Past the bound the cost wraps: a car rented one hour longer than MaxHours costs a negative amount. */
  lemma CarRentalWraps(v: Vehicle)
    requires v.kind == Car && v.rate == RateOf(Car)
    requires v.hoursRented == MaxHours(Car) + 1
    ensures v.CalculateRental() < 0
  {
  }

  /** The four rentals the program's entry point sets up, and their costs. */
  method RentalProgram() returns (toyota: Int32, ferrari: Int32, yamaha: Int32, mio: Int32)
    ensures toyota == 6500 && ferrari == 10400 && yamaha == 1500 && mio == 3000
  {
    var car1 := new Vehicle(Car);
    car1.SetData("Toyota", 5);
    toyota := car1.CalculateRental();

    var car2 := new Vehicle(Car);
    car2.SetData("Ferarri", 8);
    ferrari := car2.CalculateRental();

    var motorcycle1 := new Vehicle(Motorcycle);
    motorcycle1.SetData("Yamaha", 3);
    yamaha := motorcycle1.CalculateRental();

    var motorcycle2 := new Vehicle(Motorcycle);
    motorcycle2.SetData("Mio", 6);
    mio := motorcycle2.CalculateRental();
  }
}
