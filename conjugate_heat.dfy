/**
 * The wall temperature of a conjugate heat transfer (CHT) interface,
 * from the temperature on the fluid side and the temperature and heat
 * transfer factor sent by the coupled (solid) zone.
 */
module ConjugateHeat {
  import opened Outcome

  // CHT_COUPLING enumerators
  const DIRECT_TEMPERATURE_NEUMANN_HEATFLUX: nat := 0
  const AVERAGED_TEMPERATURE_NEUMANN_HEATFLUX: nat := 1
  const DIRECT_TEMPERATURE_ROBIN_HEATFLUX: nat := 2
  const AVERAGED_TEMPERATURE_ROBIN_HEATFLUX: nat := 3

  const UNKNOWN_CHT_MESSAGE: string := "Unknown CHT coupling method."

  predicate IsAveragedCoupling(mode: nat)
  {
    mode == AVERAGED_TEMPERATURE_NEUMANN_HEATFLUX || mode == AVERAGED_TEMPERATURE_ROBIN_HEATFLUX
  }

  predicate IsDirectCoupling(mode: nat)
  {
    mode == DIRECT_TEMPERATURE_NEUMANN_HEATFLUX || mode == DIRECT_TEMPERATURE_ROBIN_HEATFLUX
  }

  /** Heat transfer factor of the fluid side: conductivity times reference viscosity over the wall distance. */
  function FluidHeatFactor(thermalConductivity: real, viscosityRef: real, distIJ: real): real
    requires distIJ != 0.0
  {
    thermalConductivity * viscosityRef / distIJ
  }

  /** The divisions the rule performs are by non-zero numbers. */
  predicate ChtInputsOk(mode: nat, thermalConductivity: real, distIJ: real, conjFactor: real,
                        viscosityRef: real, temperatureRef: real)
  {
    temperatureRef != 0.0
    && (IsAveragedCoupling(mode) ==>
          distIJ != 0.0 && FluidHeatFactor(thermalConductivity, viscosityRef, distIJ) + conjFactor != 0.0)
  }

  /**
   * CNSSolver::GetCHTWallTemperature, with its parameters in the order of its signature.
   * conjTemperature and conjFactor are conjugate heat variables 0 (dimensional) and 2.
   */
  function GetCHTWallTemperature(mode: nat, thermalConductivity: real, distIJ: real, there: real,
                                 conjTemperature: real, conjFactor: real,
                                 viscosityRef: real, temperatureRef: real): (r: Result<real>)
    requires ChtInputsOk(mode, thermalConductivity, distIJ, conjFactor, viscosityRef, temperatureRef)
    ensures r.Fatal? <==> !IsAveragedCoupling(mode) && !IsDirectCoupling(mode)
    ensures r.Fatal? ==> r.message == UNKNOWN_CHT_MESSAGE
    ensures IsDirectCoupling(mode) ==> r == Ok(conjTemperature / temperatureRef)
    ensures IsAveragedCoupling(mode) ==>
              var fh := FluidHeatFactor(thermalConductivity, viscosityRef, distIJ);
              r.Ok? && r.value * (fh + conjFactor) == there * fh + (conjTemperature / temperatureRef) * conjFactor
  {
    var tConjugate := conjTemperature / temperatureRef;
    if IsAveragedCoupling(mode) then
      var fh := FluidHeatFactor(thermalConductivity, viscosityRef, distIJ);
      Ok((there * fh + tConjugate * conjFactor) / (fh + conjFactor))
    else if IsDirectCoupling(mode) then
      Ok(tConjugate)
    else
      Fatal(UNKNOWN_CHT_MESSAGE)
  }

  lemma WeightedAverageBetween(x: real, y: real, a: real, b: real)
    requires a > 0.0 && b > 0.0
    ensures x <= y ==> x <= (x * a + y * b) / (a + b) <= y
    ensures y <= x ==> y <= (x * a + y * b) / (a + b) <= x
  {
    var s := a + b;
    var m := (x * a + y * b) / s;
    QuotientTimesDivisor(x * a + y * b, s);
    assert m * s == x * a + y * b;
    assert (m - x) * s == (y - x) * b;
    assert (y - m) * s == (y - x) * a;
    if x <= y {
      SignFromProduct(m - x, s, (y - x) * b);
      SignFromProduct(y - m, s, (y - x) * a);
    }
    if y <= x {
      SignFromProduct(x - m, s, (x - y) * b);
      SignFromProduct(m - y, s, (x - y) * a);
    }
  }

  lemma QuotientTimesDivisor(n: real, s: real)
    requires s != 0.0
    ensures (n / s) * s == n
  {
  }

  lemma SignFromProduct(d: real, s: real, p: real)
    requires s > 0.0 && d * s == p && p >= 0.0
    ensures d >= 0.0
  {
  }

  /**
   * With positive factors on both sides, an averaged coupling puts the wall temperature
   * between the fluid-side temperature and the conjugate temperature.
   */
  lemma AveragedWallTemperatureBetween(mode: nat, thermalConductivity: real, distIJ: real, there: real,
                                       conjTemperature: real, conjFactor: real,
                                       viscosityRef: real, temperatureRef: real)
    requires IsAveragedCoupling(mode) && distIJ != 0.0 && temperatureRef != 0.0
    requires FluidHeatFactor(thermalConductivity, viscosityRef, distIJ) > 0.0 && conjFactor > 0.0
    ensures var r := GetCHTWallTemperature(mode, thermalConductivity, distIJ, there, conjTemperature,
                                           conjFactor, viscosityRef, temperatureRef);
            var tc := conjTemperature / temperatureRef;
            r.Ok? && (there <= tc ==> there <= r.value <= tc) && (tc <= there ==> tc <= r.value <= there)
  {
    WeightedAverageBetween(there, conjTemperature / temperatureRef,
                           FluidHeatFactor(thermalConductivity, viscosityRef, distIJ), conjFactor);
  }
}
