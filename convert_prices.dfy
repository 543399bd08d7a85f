/** convert_prices_to_gbp.py: converts the three category files in turn. */
module ConvertPrices {
  import opened Wrappers
  import opened PriceConversion

  const DataFiles: seq<string> := ["data/data_shirts.csv", "data/data_sarees.csv", "data/data_watches.csv"]

  /** The script: on success every data file holds the conversion of its
      original table and no other file changed; otherwise the run stopped at
      the first missing or unconvertible file. */
  method Run(dir: DataDirectory, toPence: string -> nat) returns (err: Option<ScriptError>)
    modifies dir
    ensures RunOutcome(dir.files, err) == ConvertFiles(old(dir.files), DataFiles, Converter(toPence))
    ensures dir.files.Keys == old(dir.files).Keys
    ensures err.None? <==> forall p :: p in DataFiles ==> p in old(dir.files) && ConvertTable(old(dir.files)[p], Converter(toPence)).Success?
    ensures err.None? ==> forall p :: p in DataFiles ==> dir.files[p] == ConvertTable(old(dir.files)[p], Converter(toPence)).value
    ensures forall p :: p in old(dir.files) && p !in DataFiles ==> dir.files[p] == old(dir.files)[p]
  {
    ConvertFilesFrame(dir.files, DataFiles, Converter(toPence));
    ConvertFilesComplete(dir.files, DataFiles, Converter(toPence));
    err := dir.ConvertAll(DataFiles, Converter(toPence));
  }
}

/** convert_cleaned_prices_to_gbp.py: converts the cleaned product file. */
module ConvertCleanedPrices {
  import opened Wrappers
  import opened PriceConversion

  const CleanedFile: string := "artifacts/data_cleaned.csv"

  /** The script: the cleaned file is replaced by its conversion, or the run
      reports why it could not be; no other file changes. */
  method Run(dir: DataDirectory, toPence: string -> nat) returns (err: Option<ScriptError>)
    modifies dir
    ensures RunOutcome(dir.files, err) == ConvertFiles(old(dir.files), [CleanedFile], Converter(toPence))
    ensures CleanedFile !in old(dir.files) ==> err == Some(FileNotFound(CleanedFile)) && dir.files == old(dir.files)
    ensures CleanedFile in old(dir.files) ==>
      match ConvertTable(old(dir.files)[CleanedFile], Converter(toPence))
      case Success(t) => err.None? && dir.files == old(dir.files)[CleanedFile := t]
      case Failure(e) => err == Some(ConversionFailed(CleanedFile, e)) && dir.files == old(dir.files)
  {
    err := dir.ConvertAll([CleanedFile], Converter(toPence));
  }
}
