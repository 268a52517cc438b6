// ValidatorsStorageService: what the validators job and the cache file restore write.

module ValidatorsStorage {
  import opened BalanceMaps

  /** The result of Number(string). */
  datatype Number = NaN | Num(value: int)

  class Storage {
    var activeValidatorsCount: Number
    var totalValidatorsCount: int
    var maxExitEpoch: string
    var lastUpdate: Number
    var frameBalances: FrameBalances
    var sweepMeanEpochs: Number
    var churnLimit: Number
    var withdrawableLidoValidatorIds: seq<int>
  }
}
