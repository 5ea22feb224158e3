/**
  The public disk that the content controllers store uploaded images on.
  A stored upload is named `prefix/<name>`; in the source the name is a random
  40-character hash, here the disk hands out a serial number instead, which is
  what makes every new key fresh.
 */
module Storage {

  datatype BlobKey = BlobKey(prefix: string, serial: nat)

  class PublicDisk {
    var blobs: set<BlobKey>
    var nextSerial: nat

    /** Every key on the disk was handed out before `nextSerial`. */
    ghost predicate Valid()
      reads this
    {
      forall k :: k in blobs ==> k.serial < nextSerial
    }

    constructor ()
      ensures Valid() && blobs == {}
    {
      blobs := {};
      nextSerial := 0;
    }

    /** `$file->store(prefix, 'public')`: adds exactly one new key under `prefix`. */
    method Store(prefix: string) returns (key: BlobKey)
      requires Valid()
      modifies this
      ensures Valid()
      ensures key.prefix == prefix && key !in old(blobs)
      ensures blobs == old(blobs) + {key}
      ensures key.serial == old(nextSerial) < nextSerial
    {
      key := BlobKey(prefix, nextSerial);
      blobs := blobs + {key};
      nextSerial := nextSerial + 1;
    }

    /** `Storage::disk('public')->delete($key)`: a key that is already gone is not an error. */
    method Delete(key: BlobKey)
      requires Valid()
      modifies this
      ensures Valid()
      ensures blobs == old(blobs) - {key} && nextSerial == old(nextSerial)
    {
      blobs := blobs - {key};
    }
  }
}
