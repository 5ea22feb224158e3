/**
  The image lifecycle shared by the four content controllers: the relation
  between the `image` column of a table and the keys on the public disk, and
  how each controller step (insert, replace, clear, delete) keeps it.
 */
module Images {
  import opened Wrappers
  import opened Storage

  /** The `image` column of a table, by row id. */
  type ImageColumn = map<nat, Option<BlobKey>>

  /** The `image` column of a table whose rows carry their image as `imageOf`. */
  function Column<R>(rows: map<nat, R>, imageOf: R -> Option<BlobKey>): (c: ImageColumn)
    ensures c.Keys == rows.Keys
  {
    map id | id in rows :: imageOf(rows[id])
  }

  lemma ColumnSet<R>(rows: map<nat, R>, imageOf: R -> Option<BlobKey>, id: nat, row: R)
    ensures Column(rows[id := row], imageOf) == Column(rows, imageOf)[id := imageOf(row)]
  {
  }

  lemma ColumnRemove<R>(rows: map<nat, R>, imageOf: R -> Option<BlobKey>, id: nat)
    ensures Column(rows - {id}, imageOf) == Column(rows, imageOf) - {id}
  {
  }

  /** Every image a row references is on the disk and was stored under `prefix`. */
  ghost predicate NoDangling(images: ImageColumn, blobs: set<BlobKey>, prefix: string) {
    forall id :: id in images && images[id].Some? ==> images[id].value in blobs && images[id].value.prefix == prefix
  }

  /** No two rows reference the same key, so deleting one row's image never touches another row. */
  ghost predicate Unshared(images: ImageColumn) {
    forall i, j :: i in images && j in images && i != j && images[i].Some? ==> images[i] != images[j]
  }

  ghost predicate Consistent(images: ImageColumn, blobs: set<BlobKey>, prefix: string) {
    NoDangling(images, blobs, prefix) && Unshared(images)
  }

  /** The key a row references, as a set: empty when its image is null. */
  function KeyOf(image: Option<BlobKey>): (s: set<BlobKey>)
    ensures image.None? <==> s == {}
    ensures image.Some? ==> image.value in s && |s| == 1
  {
    if image.Some? then {image.value} else {}
  }

  /** `store`: a new row, with either no image or a freshly stored one. */
  lemma Insert(images: ImageColumn, blobs: set<BlobKey>, prefix: string, id: nat, image: Option<BlobKey>)
    requires Consistent(images, blobs, prefix) && id !in images
    requires image.Some? ==> image.value !in blobs && image.value.prefix == prefix
    ensures Consistent(images[id := image], blobs + KeyOf(image), prefix)
  {
  }

  /** `update` with a file: the old key is deleted and a freshly stored key takes its place. */
  lemma Replace(images: ImageColumn, blobs: set<BlobKey>, prefix: string, id: nat, key: BlobKey)
    requires Consistent(images, blobs, prefix) && id in images
    requires key !in blobs && key.prefix == prefix
    ensures Consistent(images[id := Some(key)], (blobs - KeyOf(images[id])) + {key}, prefix)
  {
  }

  /** `update` that writes a null image: the reference goes, the blob stays. */
  lemma Clear(images: ImageColumn, blobs: set<BlobKey>, prefix: string, id: nat)
    requires Consistent(images, blobs, prefix) && id in images
    ensures Consistent(images[id := None], blobs, prefix)
  {
  }

  /** `destroy`: the row goes and so does its key; no other row referenced that key. */
  lemma Remove(images: ImageColumn, blobs: set<BlobKey>, prefix: string, id: nat)
    requires Consistent(images, blobs, prefix) && id in images
    ensures Consistent(images - {id}, blobs - KeyOf(images[id]), prefix)
  {
  }

  /** A change to the disk that stays under another prefix leaves this table consistent. */
  lemma OtherPrefix(images: ImageColumn, blobs: set<BlobKey>, blobs': set<BlobKey>, prefix: string)
    requires Consistent(images, blobs, prefix)
    requires forall k: BlobKey :: k.prefix == prefix ==> (k in blobs <==> k in blobs')
    ensures Consistent(images, blobs', prefix)
  {
  }
}
