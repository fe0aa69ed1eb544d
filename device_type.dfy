/** The closed registry of Marvelmind hardware type codes (`DeviceType` and its `TryFrom<u8>`). */
module DeviceTypes {
  import opened Wrappers
  import opened LittleEndian

  datatype DeviceType =
    | BeaconHwV45
    | BeaconHwV45Hedgehog
    | ModemHwV49
    | BeaconHwV49
    | BeaconHwV49Hedgehog
    | BeaconMiniRx
    | BeaconMiniTx
    | BeaconTxIp67
    | BeaconIndustrialRx
    | SuperBeacon
    | SuperBeaconHedgedog
    | IndustrialSuperBeacon
    | IndustrialSuperBeaconHedgedog
    | SuperModem
    | ModemHwV51

  /** The fifteen type ids the API documents. */
  const KNOWN_TYPE_IDS: set<byte> := {22, 23, 24, 30, 31, 32, 36, 37, 41, 42, 43, 44, 45, 46, 48}

  const UNKNOWN_TYPE_MESSAGE: string := "Unspecific device type id"

  /** The type id the hardware reports for each model. */
  function TypeId(t: DeviceType): (id: byte)
    ensures id in KNOWN_TYPE_IDS
  {
    match t
    case BeaconHwV45 => 22
    case BeaconHwV45Hedgehog => 23
    case ModemHwV49 => 24
    case BeaconHwV49 => 30
    case BeaconHwV49Hedgehog => 31
    case BeaconMiniRx => 32
    case BeaconMiniTx => 36
    case BeaconTxIp67 => 37
    case BeaconIndustrialRx => 41
    case SuperBeacon => 42
    case SuperBeaconHedgedog => 43
    case IndustrialSuperBeacon => 44
    case IndustrialSuperBeaconHedgedog => 45
    case SuperModem => 46
    case ModemHwV51 => 48
  }

  /**
   * Resolves a type id. It succeeds exactly on the known ids and then names the
   * model that reports that id; every other byte is an error.
   */
  function TryFrom(id: byte): (r: Result<DeviceType, string>)
    ensures r.Ok? <==> id in KNOWN_TYPE_IDS
    ensures r.Ok? ==> TypeId(r.value) == id
    ensures r.Err? ==> r.error == UNKNOWN_TYPE_MESSAGE
  {
    match id
    case 22 => Ok(BeaconHwV45)
    case 23 => Ok(BeaconHwV45Hedgehog)
    case 24 => Ok(ModemHwV49)
    case 30 => Ok(BeaconHwV49)
    case 31 => Ok(BeaconHwV49Hedgehog)
    case 32 => Ok(BeaconMiniRx)
    case 36 => Ok(BeaconMiniTx)
    case 37 => Ok(BeaconTxIp67)
    case 41 => Ok(BeaconIndustrialRx)
    case 42 => Ok(SuperBeacon)
    case 43 => Ok(SuperBeaconHedgedog)
    case 44 => Ok(IndustrialSuperBeacon)
    case 45 => Ok(IndustrialSuperBeaconHedgedog)
    case 46 => Ok(SuperModem)
    case 48 => Ok(ModemHwV51)
    case _ => Err(UNKNOWN_TYPE_MESSAGE)
  }

  /** Every model is recognised from its own id. */
  lemma TryFromTypeId(t: DeviceType)
    ensures TryFrom(TypeId(t)) == Ok(t)
  {
  }

  /** Distinct models carry distinct ids, so distinct known ids give distinct models. */
  lemma TypeIdInjective(s: DeviceType, t: DeviceType)
    ensures TypeId(s) == TypeId(t) ==> s == t
  {
  }

  lemma TryFromExamples()
    ensures TryFrom(30) == Ok(BeaconHwV49)
    ensures TryFrom(99) == Err(UNKNOWN_TYPE_MESSAGE)
  {
  }
}
