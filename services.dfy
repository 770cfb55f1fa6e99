/**
 * The blob storage the task flows upload images to. The network client is
 * not modelled: the service keeps the list of blobs uploaded through it,
 * and an upload hands back the URL the store assigns to the new blob.
 */
module Services {

  /** An uploaded blob: the name it was stored under, its bytes and its public URL. */
  datatype Blob = Blob(name: string, content: seq<bv8>, url: string)

  /** The URLs of `blobs`, in order. */
  function Urls(blobs: seq<Blob>): (urls: seq<string>)
  {
    seq(|blobs|, i requires 0 <= i < |blobs| => blobs[i].url)
  }

  class StorageService {
    /** The container's base URI. */
    const containerUri: string
    /** Every blob uploaded through this service, oldest first. */
    var blobs: seq<Blob>

    constructor (containerUri: string)
      ensures this.containerUri == containerUri && blobs == []
    {
      this.containerUri := containerUri;
      blobs := [];
    }

    /**
     * Stores `fileStream` under `fileName` and returns the new blob's URL.
     * Callers may rely only on the blob being recorded with that URL, not
     * on the URL's shape.
     */
    method UploadImage(fileStream: seq<bv8>, fileName: string) returns (url: string)
      modifies this
      ensures blobs == old(blobs) + [Blob(fileName, fileStream, url)]
    {
      url := containerUri + "/" + fileName;
      blobs := blobs + [Blob(fileName, fileStream, url)];
    }
  }
}
