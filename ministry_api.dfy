/**
  `MinistryController`: the `ministries` table and its images under
  `ministries/`.  A ministry must be created with an image (up to 6 MB); on
  `update` the image is `nullable`, so an explicit null clears the column
  while the old blob stays on the disk, as for events.
 */
module MinistryApi {
  import opened Wrappers
  import opened Text
  import opened Storage
  import opened Validation
  import opened Images

  const Prefix: string := "ministries"
  const ImageTypes: set<FileType> := {Jpeg, Png}
  const MaxImageKb: nat := 6144

  datatype MinistryRow = MinistryRow(title: string, description: string, image: Option<BlobKey>)

  datatype MinistryInput = MinistryInput(title: Option<string>, description: Option<string>, image: ImageField)

  /** `required|string|max:<n>` */
  predicate RequiredMax(v: Option<string>, n: nat) { Required(v) && |v.value| <= n }

  /** `required|image|mimes:jpeg,png,jpg|max:6144`: a file must be sent. */
  predicate StoreImageOk(f: ImageField) { f.FileImage? && ImageRule(f.file, ImageTypes, MaxImageKb) }

  /** `nullable|image|mimes:jpeg,png,jpg|max:6144` */
  predicate UpdateImageOk(f: ImageField) { f.FileImage? ==> ImageRule(f.file, ImageTypes, MaxImageKb) }

  function StoreErrors(r: MinistryInput): (errs: set<string>)
    ensures errs == {} <==>
      RequiredMax(r.title, 255) && RequiredMax(r.description, 1000) && StoreImageOk(r.image)
    ensures !r.image.FileImage? ==> "image" in errs
  {
    Failing("title", RequiredMax(r.title, 255)) + Failing("description", RequiredMax(r.description, 1000))
    + Failing("image", StoreImageOk(r.image))
  }

  function UpdateErrors(r: MinistryInput): (errs: set<string>)
    ensures errs == {} <==>
      IfSent(r.title, RequiredMax(r.title, 255)) && IfSent(r.description, RequiredMax(r.description, 1000))
      && UpdateImageOk(r.image)
  {
    Failing("title", IfSent(r.title, RequiredMax(r.title, 255)))
    + Failing("description", IfSent(r.description, RequiredMax(r.description, 1000)))
    + Failing("image", UpdateImageOk(r.image))
  }

  /** `$ministry->update($validated)`: sent fields overwrite, absent fields keep their value. */
  function Patch(row: MinistryRow, r: MinistryInput, image: Option<BlobKey>): (p: MinistryRow)
    ensures p.title == r.title.GetOr(row.title) && p.description == r.description.GetOr(row.description)
    ensures p.image == image
  {
    MinistryRow(r.title.GetOr(row.title), r.description.GetOr(row.description), image)
  }

  function ImageOf(row: MinistryRow): Option<BlobKey> { row.image }

  class MinistryController {
    var rows: map<nat, MinistryRow>
    var nextId: nat
    const disk: PublicDisk

    function Images(): ImageColumn
      reads this
    {
      Column(rows, ImageOf)
    }

    ghost predicate Valid()
      reads this, disk
    {
      && disk.Valid()
      && 1 <= nextId && (forall id :: id in rows ==> 1 <= id < nextId)
      && Consistent(Images(), disk.blobs, Prefix)
    }

    constructor (disk: PublicDisk)
      requires disk.Valid()
      ensures Valid() && this.disk == disk && rows == map[]
    {
      this.disk := disk;
      rows := map[];
      nextId := 1;
    }

    /** `index`: every ministry, most recently created first. */
    function Index(): (r: seq<(nat, MinistryRow)>)
      reads this, disk
      requires Valid()
      ensures forall id :: id in rows ==> (id, rows[id]) in r
      ensures forall i :: 0 <= i < |r| ==> r[i].0 in rows && r[i].1 == rows[r[i].0]
      ensures forall i, j :: 0 <= i < j < |r| ==> r[i].0 > r[j].0
    {
      Latest(rows, nextId)
    }

    /** `store`: validate (an image is required), store it under `ministries/`, insert the row, answer 201. */
    method Store(r: MinistryInput) returns (resp: Response<MinistryRow>)
      requires Valid()
      modifies this, disk
      ensures Valid()
      ensures StoreErrors(r) != {} ==>
        resp == Invalid(StoreErrors(r)) && rows == old(rows) && disk.blobs == old(disk.blobs)
      ensures StoreErrors(r) == {} ==>
        && resp.Created? && resp.Status() == 201 && resp.id !in old(rows)
        && rows == old(rows)[resp.id := resp.row]
        && resp.row.title == r.title.value && resp.row.description == r.description.value
        && resp.row.image.Some? && resp.row.image.value.prefix == Prefix
        && resp.row.image.value !in old(disk.blobs)
        && disk.blobs == old(disk.blobs) + {resp.row.image.value}
    {
      var errs := StoreErrors(r);
      if errs != {} {
        return Invalid(errs);
      }
      var key := disk.Store(Prefix);
      var id := Add(MinistryRow(r.title.value, r.description.value, Some(key)));
      resp := Created(id, rows[id]);
    }

    /** The row is inserted under the next auto-increment id. */
    method Add(row: MinistryRow) returns (id: nat)
      requires disk.Valid() && 1 <= nextId && (forall k :: k in rows ==> 1 <= k < nextId)
      requires row.image.Some? ==> row.image.value in disk.blobs
      requires Consistent(Images(), disk.blobs - KeyOf(row.image), Prefix)
      requires row.image.Some? ==> row.image.value.prefix == Prefix
      modifies this
      ensures Valid()
      ensures id == old(nextId) && id !in old(rows) && rows == old(rows)[id := row]
    {
      var before := disk.blobs - KeyOf(row.image);
      assert disk.blobs == before + KeyOf(row.image);
      Insert(Images(), before, Prefix, nextId, row.image);
      ColumnSet(rows, ImageOf, nextId, row);
      rows := rows[nextId := row];
      id := nextId;
      nextId := nextId + 1;
    }

    /**
      `update`: 404 for a missing ministry.  A file replaces the image (the old
      blob is deleted); a null image clears the column and keeps the blob; no
      image keeps the current one.
     */
    method Update(id: nat, r: MinistryInput) returns (resp: Response<MinistryRow>)
      requires Valid()
      modifies this, disk
      ensures Valid() && nextId == old(nextId)
      ensures id !in old(rows) ==> resp == NotFound && rows == old(rows) && disk.blobs == old(disk.blobs)
      ensures id in old(rows) && UpdateErrors(r) != {} ==>
        resp == Invalid(UpdateErrors(r)) && rows == old(rows) && disk.blobs == old(disk.blobs)
      ensures id in old(rows) && UpdateErrors(r) == {} ==>
        && resp.Ok? && resp.Status() == 200 && resp.id == id
        && rows == old(rows)[id := resp.row]
        && resp.row == Patch(old(rows)[id], r, resp.row.image)
        && (r.image.FileImage? ==>
              && resp.row.image.Some? && resp.row.image.value.prefix == Prefix
              && resp.row.image.value !in old(disk.blobs)
              && disk.blobs == (old(disk.blobs) - KeyOf(old(rows)[id].image)) + {resp.row.image.value})
        && (r.image.NullImage? ==> resp.row.image.None? && disk.blobs == old(disk.blobs))
        && (r.image.NoImage? ==> resp.row.image == old(rows)[id].image && disk.blobs == old(disk.blobs))
    {
      if id !in rows {
        return NotFound;
      }
      var errs := UpdateErrors(r);
      if errs != {} {
        return Invalid(errs);
      }
      var image := ReplaceImage(id, r.image);
      Set(id, Patch(rows[id], r, image));
      resp := Ok(id, rows[id]);
    }

    /**
      An upload on `update` deletes the current image and stores the new one;
      a null image clears the reference and leaves the file on the disk; no
      image keeps the current one.
     */
    method ReplaceImage(id: nat, f: ImageField) returns (image: Option<BlobKey>)
      requires Valid() && id in rows
      modifies disk
      ensures disk.Valid() && Consistent(Images()[id := image], disk.blobs, Prefix)
      ensures f.FileImage? ==>
        && image.Some? && image.value.prefix == Prefix && image.value !in old(disk.blobs)
        && disk.blobs == (old(disk.blobs) - KeyOf(rows[id].image)) + {image.value}
      ensures f.NullImage? ==> image.None? && disk.blobs == old(disk.blobs)
      ensures f.NoImage? ==> image == rows[id].image && disk.blobs == old(disk.blobs)
    {
      image := rows[id].image;
      if f.FileImage? {
        if image.Some? {
          disk.Delete(image.value);
        }
        var key := disk.Store(Prefix);
        image := Some(key);
        Replace(Images(), old(disk.blobs), Prefix, id, key);
      } else if f.NullImage? {
        image := None;
        Clear(Images(), disk.blobs, Prefix, id);
      } else {
        assert Images()[id := image] == Images();
      }
    }

    /** The row under an existing id is overwritten. */
    method Set(id: nat, row: MinistryRow)
      requires disk.Valid() && 1 <= nextId && (forall k :: k in rows ==> 1 <= k < nextId)
      requires id in rows && Consistent(Images()[id := row.image], disk.blobs, Prefix)
      modifies this
      ensures Valid() && nextId == old(nextId) && rows == old(rows)[id := row]
    {
      ColumnSet(rows, ImageOf, id, row);
      rows := rows[id := row];
    }

    /** `destroy`: delete the ministry's image if it has one, then the row; answer 204. */
    method Destroy(id: nat) returns (resp: Response<MinistryRow>)
      requires Valid()
      modifies this, disk
      ensures Valid() && nextId == old(nextId)
      ensures id !in old(rows) ==> resp == NotFound && rows == old(rows) && disk.blobs == old(disk.blobs)
      ensures id in old(rows) ==>
        && resp == NoContent && resp.Status() == 204
        && rows == old(rows) - {id}
        && disk.blobs == old(disk.blobs) - KeyOf(old(rows)[id].image)
    {
      if id !in rows {
        return NotFound;
      }
      var image := rows[id].image;
      if image.Some? {
        disk.Delete(image.value);
      }
      Remove(Images(), old(disk.blobs), Prefix, id);
      ColumnRemove(rows, ImageOf, id);
      rows := rows - {id};
      resp := NoContent;
    }
  }
}
