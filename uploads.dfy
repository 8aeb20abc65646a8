/** The uploaded `csv_file` as the request hands it over. */
module Uploads {
  import opened Php

  /**
    An uploaded file: whether the transfer completed (what the `file` rule checks), its size in
    bytes, the extension guessed from its sniffed MIME type (what `mimes` checks), whether
    fopen on its stored path succeeds, and its bytes as text.
  */
  datatype Upload = Upload(uploadOk: bool, sizeBytes: nat, guessedExtension: string, readable: bool, content: string)

  /** What successive fgets calls on a fresh handle over the file return. */
  function Lines(u: Upload): seq<string> {
    Chunks(u.content)
  }
}
