/**
 * The output-file naming rule of the downloader: the requested name gets the
 * format's extension appended unless it already ends with it. Locating the
 * Downloads directory and writing the file are outside the model.
 */
module Download {
  import opened Strings

  const JsonlExtension: string := ".jsonl"
  const TxtExtension: string := ".txt"

  /**
   * `if filename.ends_with(ext) { filename } else { filename + ext }`: the
   * result extends the requested name, ends with the extension, adds at most
   * the extension, and is the name itself exactly when it already ends so.
   */
  function WithExtension(filename: string, ext: string): (name: string)
    ensures EndsWith(name, ext)
    ensures StartsWith(name, filename)
    ensures |name| <= |filename| + |ext|
    ensures name == filename <==> EndsWith(filename, ext)
  {
    if EndsWith(filename, ext) then filename
    else
      var name := filename + ext;
      assert name[|name| - |ext|..] == ext;
      assert name[..|filename|] == filename;
      name
  }

  /** The name `save_to_downloads_jsonl` writes to. */
  function JsonlFileName(filename: string): (name: string)
    ensures EndsWith(name, JsonlExtension)
    ensures name == filename <==> EndsWith(filename, JsonlExtension)
  {
    WithExtension(filename, JsonlExtension)
  }

  /** The name `save_to_downloads_txt` writes to. */
  function TxtFileName(filename: string): (name: string)
    ensures EndsWith(name, TxtExtension)
    ensures name == filename <==> EndsWith(filename, TxtExtension)
  {
    WithExtension(filename, TxtExtension)
  }

  /** Normalising a name twice gives the same name as normalising it once. */
  lemma WithExtensionIdempotent(filename: string, ext: string)
    ensures WithExtension(WithExtension(filename, ext), ext) == WithExtension(filename, ext)
  {
  }

  /** A name that does not end with the extension gets exactly the extension appended. */
  lemma WithExtensionAppends(filename: string, ext: string)
    requires !EndsWith(filename, ext)
    ensures WithExtension(filename, ext) == filename + ext
  {
  }

  lemma JsonlFileNameIdempotent(filename: string)
    ensures JsonlFileName(JsonlFileName(filename)) == JsonlFileName(filename)
  {
    WithExtensionIdempotent(filename, JsonlExtension);
  }

  lemma TxtFileNameIdempotent(filename: string)
    ensures TxtFileName(TxtFileName(filename)) == TxtFileName(filename)
  {
    WithExtensionIdempotent(filename, TxtExtension);
  }
}
