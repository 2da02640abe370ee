/**
  Validation of the loaded configuration: the sections the application
  needs and the two serial-port settings it cannot run without.
 */
module Config {
  import opened Wrappers

  /** The `modbus` section's `serial_port` and `baudrate`, each possibly absent. */
  datatype ModbusSection = ModbusSection(serialPort: Option<string>, baudrate: Option<int>)

  /** A loaded configuration: the names of its top-level sections and the content of `modbus`. */
  datatype Configuration = Configuration(sections: set<string>, modbus: ModbusSection)

  datatype ConfigError = MissingSection(name: string) | MissingSerialPort | NonPositiveBaudrate

  /** The sections that must be present, in the order they are checked. */
  const RequiredSections: seq<string> := ["modbus", "polling", "flask"]

  /** The first name of `required` that is not in `present`. */
  function FirstMissing(required: seq<string>, present: set<string>): (r: Option<string>)
    ensures r.None? <==> forall i :: 0 <= i < |required| ==> required[i] in present
    ensures r.Some? ==>
      exists i :: 0 <= i < |required| && required[i] == r.value && r.value !in present &&
        (forall j :: 0 <= j < i ==> required[j] in present)
  {
    if required == [] then None
    else if required[0] !in present then Some(required[0])
    else FirstMissing(required[1..], present)
  }

  /** A name outside `required` does not affect which one is missing. */
  lemma FirstMissingIgnores(required: seq<string>, present: set<string>, other: string)
    requires other !in required
    ensures FirstMissing(required, present - {other}) == FirstMissing(required, present)
    ensures FirstMissing(required, present + {other}) == FirstMissing(required, present)
  {
  }

  /**
    Raises for a missing required section (the first, in checking order),
    then for a missing or empty serial port, then for a missing or
    non-positive baud rate; passes otherwise.
   */
  function ValidateConfig(c: Configuration): (r: Outcome<ConfigError>)
    ensures r.Pass? <==>
      && (forall s :: s in RequiredSections ==> s in c.sections)
      && c.modbus.serialPort.Some? && c.modbus.serialPort.value != ""
      && c.modbus.baudrate.Some? && c.modbus.baudrate.value > 0
    ensures r.Fail? && r.error.MissingSection? ==>
      r.error.name in RequiredSections && r.error.name !in c.sections
    ensures r == Fail(MissingSerialPort) ==>
      (forall s :: s in RequiredSections ==> s in c.sections) &&
      (c.modbus.serialPort.None? || c.modbus.serialPort.value == "")
    ensures r == Fail(NonPositiveBaudrate) ==>
      (forall s :: s in RequiredSections ==> s in c.sections) &&
      c.modbus.serialPort.Some? && c.modbus.serialPort.value != "" &&
      (c.modbus.baudrate.None? || c.modbus.baudrate.value <= 0)
  {
    match FirstMissing(RequiredSections, c.sections)
    case Some(name) => Fail(MissingSection(name))
    case None =>
      if c.modbus.serialPort.GetOr("") == "" then Fail(MissingSerialPort)
      else if c.modbus.baudrate.GetOr(0) <= 0 then Fail(NonPositiveBaudrate)
      else Pass
  }

  /** A `database` section is not required: its presence never changes the verdict. */
  lemma DatabaseSectionOptional(c: Configuration)
    ensures ValidateConfig(c.(sections := c.sections - {"database"})) == ValidateConfig(c)
    ensures ValidateConfig(c.(sections := c.sections + {"database"})) == ValidateConfig(c)
  {
  }
}
