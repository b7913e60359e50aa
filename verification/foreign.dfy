/** Functions the converter calls but whose code is not part of this model. They
    are passed in as values, so every property proved here holds whatever they do. */
module Foreign {
  import opened Strings

  datatype Externals = Externals(
    /** kanaria `UCSStr::wide(ConvertTarget::KATAKANA)`: half-width katakana to full width. */
    wide: string -> string,
    /** kanaria `UCSStr::hiragana`: conversion to hiragana. */
    hira: string -> string,
    /** `fix_number`: the lookup key of a telephone number. */
    fixNumber: string -> string)

  /** The platform's path conventions as `get_params` uses them. */
  datatype PathOps = PathOps(
    /** `std::path::MAIN_SEPARATOR`. */
    separator: char,
    /** `Path::extension`, already converted to text. */
    extension: string -> Option<string>,
    /** `Path::file_name`, already converted to text. */
    fileName: string -> Option<string>,
    /** `Path::parent`, already converted to text. */
    parent: string -> Option<string>,
    /** `str::to_lowercase`. */
    toLower: string -> string)
}
