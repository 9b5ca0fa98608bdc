/** The resolved command-line configuration of the packaged tool. */
module Settings {
  import opened FileSystem

  /** `--imageArchive` as path components, `--mode`, `--addDuplicates`,
      `--addNoExif` and `--confirm`. */
  datatype Config = Config(root: seq<string>, mode: Mode, addDuplicates: bool,
                           addNoExif: bool, confirm: bool)

  /** Side folder for images without a timestamp. */
  const NoExifFolder: string := "no_exif_data"
  /** Side folder for byte-identical copies of archived images. */
  const DuplicateFolder: string := "duplicate_images"
}
