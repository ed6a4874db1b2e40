/**
 * The caption cache shared by the Python writer and the JavaScript reader: a
 * JSON object mapping a folder key ("" or a relative folder path ending in
 * "/") to an object mapping image labels to captions.
 */
module CacheFormat {

  type DescriptionMap = map<string, map<string, string>>

  /** The cache holds a caption for `imageLabel` inside `folder`. */
  predicate Has(m: DescriptionMap, folder: string, imageLabel: string)
  {
    folder in m && imageLabel in m[folder]
  }
}
