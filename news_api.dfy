/**
  `NewsController`: the `news` table and its images under `news/`.  As for
  posts, the image rule on `update` exists only when a file is sent; the
  description is limited to 500 characters and, on `update`, may be blank.
 */
module NewsApi {
  import opened Wrappers
  import opened Text
  import opened Storage
  import opened Validation
  import opened Images

  const Prefix: string := "news"
  const StoreTypes: set<FileType> := {Jpeg, Png}
  const UpdateTypes: set<FileType> := {Jpeg, Png}
  const MaxImageKb: nat := 2048

  datatype NewsRow = NewsRow(title: string, category: string, date: string, description: string, image: Option<BlobKey>)

  datatype NewsInput = NewsInput(
    title: Option<string>, category: Option<string>, date: Option<string>,
    description: Option<string>, image: ImageField)

  /** `required|string|max:<n>` */
  predicate RequiredMax(v: Option<string>, n: nat) { Required(v) && |v.value| <= n }

  /** `required|date_format:Y-m-d` */
  predicate DateOk(v: Option<string>) { Required(v) && YmdRule(v.value) }

  /**
    `sometimes|string|max:500`: not `required`, and neither rule is implicit, so
    the validator skips both on a description that trims to blank, whatever its length.
   */
  predicate UpdateDescriptionOk(v: Option<string>) { v.None? || PhpBlank(v.value) || |v.value| <= 500 }

  /** `nullable|image|mimes:jpeg,png,jpg|max:2048` */
  predicate StoreImageOk(f: ImageField) { f.FileImage? ==> ImageRule(f.file, StoreTypes, MaxImageKb) }

  /** `image|mimes:jpeg,png,jpg|max:2048`, added to the rules only when a file is sent. */
  predicate UpdateImageOk(f: ImageField) { f.FileImage? ==> ImageRule(f.file, UpdateTypes, MaxImageKb) }

  function StoreErrors(r: NewsInput): (errs: set<string>)
    ensures errs == {} <==>
      RequiredMax(r.title, 255) && RequiredMax(r.category, 255) && DateOk(r.date)
      && RequiredMax(r.description, 500) && StoreImageOk(r.image)
  {
    Failing("title", RequiredMax(r.title, 255)) + Failing("category", RequiredMax(r.category, 255))
    + Failing("date", DateOk(r.date)) + Failing("description", RequiredMax(r.description, 500))
    + Failing("image", StoreImageOk(r.image))
  }

  function UpdateErrors(r: NewsInput): (errs: set<string>)
    ensures errs == {} <==>
      IfSent(r.title, RequiredMax(r.title, 255)) && IfSent(r.category, RequiredMax(r.category, 255))
      && IfSent(r.date, DateOk(r.date)) && UpdateDescriptionOk(r.description) && UpdateImageOk(r.image)
  {
    Failing("title", IfSent(r.title, RequiredMax(r.title, 255))) + Failing("category", IfSent(r.category, RequiredMax(r.category, 255)))
    + Failing("date", IfSent(r.date, DateOk(r.date))) + Failing("description", UpdateDescriptionOk(r.description))
    + Failing("image", UpdateImageOk(r.image))
  }

  /** On update the description is checked only when sent and not blank; then its length decides. */
  lemma UpdateDescriptionRule(r: NewsInput)
    ensures "description" in UpdateErrors(r) <==>
      r.description.Some? && !PhpBlank(r.description.value) && |r.description.value| > 500
  {
  }

  /** `$news->update($validated)`: sent fields overwrite, absent fields keep their value. */
  function Patch(row: NewsRow, r: NewsInput, image: Option<BlobKey>): (p: NewsRow)
    ensures p.title == r.title.GetOr(row.title) && p.category == r.category.GetOr(row.category)
    ensures p.date == r.date.GetOr(row.date) && p.description == r.description.GetOr(row.description)
    ensures p.image == image
  {
    NewsRow(r.title.GetOr(row.title), r.category.GetOr(row.category), r.date.GetOr(row.date),
            r.description.GetOr(row.description), image)
  }

  function ImageOf(row: NewsRow): Option<BlobKey> { row.image }

  class NewsController {
    var rows: map<nat, NewsRow>
    var nextId: nat
    const disk: PublicDisk

    function Images(): ImageColumn
      reads this
    {
      Column(rows, ImageOf)
    }

    ghost predicate Valid()
      reads this, disk
    {
      && disk.Valid()
      && 1 <= nextId && (forall id :: id in rows ==> 1 <= id < nextId)
      && Consistent(Images(), disk.blobs, Prefix)
    }

    constructor (disk: PublicDisk)
      requires disk.Valid()
      ensures Valid() && this.disk == disk && rows == map[]
    {
      this.disk := disk;
      rows := map[];
      nextId := 1;
    }

    /** `index`: every news item, newest first. */
    function Index(): (r: seq<(nat, NewsRow)>)
      reads this, disk
      requires Valid()
      ensures forall id :: id in rows ==> (id, rows[id]) in r
      ensures forall i :: 0 <= i < |r| ==> r[i].0 in rows && r[i].1 == rows[r[i].0]
      ensures forall i, j :: 0 <= i < j < |r| ==> r[i].0 > r[j].0
    {
      Latest(rows, nextId)
    }

    /** `store`: validate, store an attached image under `news/`, insert the row; the new model is answered with 201. */
    method Store(r: NewsInput) returns (resp: Response<NewsRow>)
      requires Valid()
      modifies this, disk
      ensures Valid()
      ensures StoreErrors(r) != {} ==>
        resp == Invalid(StoreErrors(r)) && rows == old(rows) && disk.blobs == old(disk.blobs)
      ensures StoreErrors(r) == {} ==>
        && resp.Created? && resp.Status() == 201 && resp.id !in old(rows)
        && rows == old(rows)[resp.id := resp.row]
        && resp.row == NewsRow(r.title.value, r.category.value, r.date.value, r.description.value, resp.row.image)
        && (r.image.FileImage? ==>
              && resp.row.image.Some? && resp.row.image.value.prefix == Prefix
              && resp.row.image.value !in old(disk.blobs)
              && disk.blobs == old(disk.blobs) + {resp.row.image.value})
        && (!r.image.FileImage? ==> resp.row.image.None? && disk.blobs == old(disk.blobs))
    {
      var errs := StoreErrors(r);
      if errs != {} {
        return Invalid(errs);
      }
      var image := StoreImage(r.image);
      var id := Add(NewsRow(r.title.value, r.category.value, r.date.value, r.description.value, image));
      resp := Created(id, rows[id]);
    }

    /** The upload of a validated `store`, if any, is stored under `news/`. */
    method StoreImage(f: ImageField) returns (image: Option<BlobKey>)
      requires Valid()
      modifies disk
      ensures disk.Valid()
      ensures f.FileImage? ==> image.Some? && image.value.prefix == Prefix && image.value !in old(disk.blobs)
      ensures !f.FileImage? ==> image.None?
      ensures disk.blobs == old(disk.blobs) + KeyOf(image)
    {
      image := None;
      if f.FileImage? {
        var key := disk.Store(Prefix);
        image := Some(key);
      }
    }

    /** The row is inserted under the next auto-increment id. */
    method Add(row: NewsRow) returns (id: nat)
      requires disk.Valid() && 1 <= nextId && (forall k :: k in rows ==> 1 <= k < nextId)
      requires row.image.Some? ==> row.image.value in disk.blobs
      requires Consistent(Images(), disk.blobs - KeyOf(row.image), Prefix)
      requires row.image.Some? ==> row.image.value.prefix == Prefix
      modifies this
      ensures Valid()
      ensures id == old(nextId) && id !in old(rows) && rows == old(rows)[id := row]
    {
      var before := disk.blobs - KeyOf(row.image);
      assert disk.blobs == before + KeyOf(row.image);
      Insert(Images(), before, Prefix, nextId, row.image);
      ColumnSet(rows, ImageOf, nextId, row);
      rows := rows[nextId := row];
      id := nextId;
      nextId := nextId + 1;
    }

    /**
      `update`: 404 for a missing item.  Only an uploaded file touches the
      image: the old one is deleted and a new key stored; no file, or a null
      image, keeps the current image.
     */
    method Update(id: nat, r: NewsInput) returns (resp: Response<NewsRow>)
      requires Valid()
      modifies this, disk
      ensures Valid() && nextId == old(nextId)
      ensures id !in old(rows) ==> resp == NotFound && rows == old(rows) && disk.blobs == old(disk.blobs)
      ensures id in old(rows) && UpdateErrors(r) != {} ==>
        resp == Invalid(UpdateErrors(r)) && rows == old(rows) && disk.blobs == old(disk.blobs)
      ensures id in old(rows) && UpdateErrors(r) == {} ==>
        && resp.Ok? && resp.Status() == 200 && resp.id == id
        && rows == old(rows)[id := resp.row]
        && resp.row == Patch(old(rows)[id], r, resp.row.image)
        && (r.image.FileImage? ==>
              && resp.row.image.Some? && resp.row.image.value.prefix == Prefix
              && resp.row.image.value !in old(disk.blobs)
              && disk.blobs == (old(disk.blobs) - KeyOf(old(rows)[id].image)) + {resp.row.image.value})
        && (!r.image.FileImage? ==> resp.row.image == old(rows)[id].image && disk.blobs == old(disk.blobs))
    {
      if id !in rows {
        return NotFound;
      }
      var errs := UpdateErrors(r);
      if errs != {} {
        return Invalid(errs);
      }
      var image := ReplaceImage(id, r.image);
      Set(id, Patch(rows[id], r, image));
      resp := Ok(id, rows[id]);
    }

    /** An upload on `update` deletes the item's current image and stores the new one; otherwise the image stays. */
    method ReplaceImage(id: nat, f: ImageField) returns (image: Option<BlobKey>)
      requires Valid() && id in rows
      modifies disk
      ensures disk.Valid() && Consistent(Images()[id := image], disk.blobs, Prefix)
      ensures f.FileImage? ==>
        && image.Some? && image.value.prefix == Prefix && image.value !in old(disk.blobs)
        && disk.blobs == (old(disk.blobs) - KeyOf(rows[id].image)) + {image.value}
      ensures !f.FileImage? ==> image == rows[id].image && disk.blobs == old(disk.blobs)
    {
      image := rows[id].image;
      if f.FileImage? {
        if image.Some? {
          disk.Delete(image.value);
        }
        var key := disk.Store(Prefix);
        image := Some(key);
        Replace(Images(), old(disk.blobs), Prefix, id, key);
      } else {
        assert Images()[id := image] == Images();
      }
    }

    /** The row under an existing id is overwritten. */
    method Set(id: nat, row: NewsRow)
      requires disk.Valid() && 1 <= nextId && (forall k :: k in rows ==> 1 <= k < nextId)
      requires id in rows && Consistent(Images()[id := row.image], disk.blobs, Prefix)
      modifies this
      ensures Valid() && nextId == old(nextId) && rows == old(rows)[id := row]
    {
      ColumnSet(rows, ImageOf, id, row);
      rows := rows[id := row];
    }

    /** `destroy`: delete the item's image if it has one, then the row; answer 204. */
    method Destroy(id: nat) returns (resp: Response<NewsRow>)
      requires Valid()
      modifies this, disk
      ensures Valid() && nextId == old(nextId)
      ensures id !in old(rows) ==> resp == NotFound && rows == old(rows) && disk.blobs == old(disk.blobs)
      ensures id in old(rows) ==>
        && resp == NoContent && resp.Status() == 204
        && rows == old(rows) - {id}
        && disk.blobs == old(disk.blobs) - KeyOf(old(rows)[id].image)
    {
      if id !in rows {
        return NotFound;
      }
      var image := rows[id].image;
      if image.Some? {
        disk.Delete(image.value);
      }
      Remove(Images(), old(disk.blobs), Prefix, id);
      ColumnRemove(rows, ImageOf, id);
      rows := rows - {id};
      resp := NoContent;
    }
  }
}
