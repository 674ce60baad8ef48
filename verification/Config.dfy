/** The configuration that the benchmark reads. */
module Config {
  import opened Machine

  datatype Settings = Settings(
    minBlobSize: uint64,
    maxBlobSize: uint64,
    randomBlobCacheSize: uint64,
    blobKeyCount: uint64,
    jellyConfig: map<string, string>,
    rocksDBCompression: string,
    writeBackend: string,
    writeRate: uint64,
    writeRunSeconds: uint32)

  const DEFAULTS := Settings(5000, 15000, 1000, 10000, map[], "none", "jelly", 1000, 10)
}
