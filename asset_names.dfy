/** Names both asset passes of `asset_optimization_script.py` treat specially. */
module AssetNames {
  /** The macOS folder-metadata file: never an asset, and skipped by the image loop. */
  const DsStore: string := ".DS_Store"
}
