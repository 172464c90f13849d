/** The two record types of the signal library. F is the representation of a float field. */
module SignalRecords {
  import opened JsonText
  import opened JsonRecords

  type Int64 = x: int | -0x8000_0000_0000_0000 <= x <= 0x7fff_ffff_ffff_ffff
  type Uint32 = x: int | 0 <= x < 0x1_0000_0000
  type Uint8 = x: int | 0 <= x < 0x100

  const MS_AUTO_HIGH: Uint8 := 0
  const MS_AUTO_LOW: Uint8 := 1
  const MS_PENDING: Uint8 := 2
  const MS_CONFIRMED: Uint8 := 3
  const MS_MANUAL: Uint8 := 5

  /** One observation. */
  datatype Sighting<F> = Sighting(
    sightingId: string, filename: string, reporter: string, station: string,
    freqMhz: F, bwKhz: F,
    modulation: string, protocol: string, target: string, operatorName: string, tags: string,
    startUtc: Int64, durationS: Uint32, emitterUid: string, matchStatus: Uint8)

  /** The observations grouped as one signal. */
  datatype Emitter<F> = Emitter(
    emitterUid: string, displayName: string,
    freqCenterMhz: F, freqToleranceKhz: F, bwKhz: F,
    modulation: string, protocol: string, tagsId: string,
    firstSeenUtc: Int64, lastSeenUtc: Int64, sightingCount: Uint32,
    contributingStations: seq<string>, operatorNotes: string, memberSightingIds: seq<string>,
    createdBy: string, createdUtc: Int64)

  /** The text printf made of a float. */
  type FloatText = t: string | IsFloatText(t) witness "0"

  function ToUint32(v: int): Uint32 {
    v % 0x1_0000_0000
  }

  function ToUint8(v: int): Uint8 {
    v % 0x100
  }

  /** What a 64-bit field holds after being printed and read. */
  function KeptInt(v: Int64): Int64 {
    NumberToInt64(Decimal(v))
  }
}
