/** The object-store collaborator of the report service. */
module Storage {
  import opened Wrappers

  type Url = string

  /** An uploaded file as the multipart interceptor hands it over. */
  datatype File = File(originalName: string, buffer: seq<bv8>)

  /** The storage client. Its network exchange is not modelled: an upload either yields the
      public URL of the stored file or fails, and the model does not decide which. */
  class Uploader {
    constructor ()
    {
    }

    method UploadFile(file: File) returns (url: Option<Url>)
    {
      url := *;
    }
  }
}
