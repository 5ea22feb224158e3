/**
  `PostController`: the `posts` table and its images under `posts/`.  Unlike
  events, a post's image rule on `update` exists only when a file is sent, so
  a null image leaves the stored one in place.
 */
module PostApi {
  import opened Wrappers
  import opened Text
  import opened Storage
  import opened Validation
  import opened Images

  const Prefix: string := "posts"
  const StoreTypes: set<FileType> := {Jpeg, Png, Webp}
  const UpdateTypes: set<FileType> := {Jpeg, Png}
  const MaxImageKb: nat := 2048

  datatype PostRow = PostRow(title: string, category: string, date: string, author: Option<string>, description: string, image: Option<BlobKey>)

  datatype PostInput = PostInput(
    title: Option<string>, category: Option<string>, date: Option<string>,
    author: Option<string>, description: Option<string>, image: ImageField)

  /** `required|string|max:<n>` */
  predicate RequiredMax(v: Option<string>, n: nat) { Required(v) && |v.value| <= n }

  /** `required|date_format:Y-m-d` */
  predicate DateOk(v: Option<string>) { Required(v) && YmdRule(v.value) }

  /**
    `sometimes|string|max:255`: the author may be left out, and since neither
    rule is implicit the validator skips both on a value that trims to blank.
   */
  predicate AuthorOk(v: Option<string>) { v.None? || PhpBlank(v.value) || |v.value| <= 255 }

  /** `nullable|image|mimes:jpeg,png,jpg,webp|max:2048` */
  predicate StoreImageOk(f: ImageField) { f.FileImage? ==> ImageRule(f.file, StoreTypes, MaxImageKb) }

  /** `image|mimes:jpeg,png,jpg|max:2048`, added to the rules only when a file is sent. */
  predicate UpdateImageOk(f: ImageField) { f.FileImage? ==> ImageRule(f.file, UpdateTypes, MaxImageKb) }

  function StoreErrors(r: PostInput): (errs: set<string>)
    ensures errs == {} <==>
      RequiredMax(r.title, 255) && RequiredMax(r.category, 255) && DateOk(r.date)
      && AuthorOk(r.author) && RequiredMax(r.description, 1000) && StoreImageOk(r.image)
  {
    Failing("title", RequiredMax(r.title, 255)) + Failing("category", RequiredMax(r.category, 255))
    + Failing("date", DateOk(r.date)) + Failing("author", AuthorOk(r.author))
    + Failing("description", RequiredMax(r.description, 1000)) + Failing("image", StoreImageOk(r.image))
  }

  function UpdateErrors(r: PostInput): (errs: set<string>)
    ensures errs == {} <==>
      IfSent(r.title, RequiredMax(r.title, 255)) && IfSent(r.category, RequiredMax(r.category, 255))
      && IfSent(r.date, DateOk(r.date)) && AuthorOk(r.author)
      && IfSent(r.description, RequiredMax(r.description, 1000)) && UpdateImageOk(r.image)
  {
    Failing("title", IfSent(r.title, RequiredMax(r.title, 255))) + Failing("category", IfSent(r.category, RequiredMax(r.category, 255)))
    + Failing("date", IfSent(r.date, DateOk(r.date))) + Failing("author", AuthorOk(r.author))
    + Failing("description", IfSent(r.description, RequiredMax(r.description, 1000))) + Failing("image", UpdateImageOk(r.image))
  }

  /** The author is checked only when sent and not blank; then its length decides. */
  lemma AuthorRule(r: PostInput)
    ensures "author" in StoreErrors(r) <==> r.author.Some? && !PhpBlank(r.author.value) && |r.author.value| > 255
    ensures "author" in UpdateErrors(r) <==> "author" in StoreErrors(r)
  {
  }

  /** `$post->update($validated)`: sent fields overwrite, absent fields keep their value. */
  function Patch(row: PostRow, r: PostInput, image: Option<BlobKey>): (p: PostRow)
    ensures p.title == r.title.GetOr(row.title) && p.category == r.category.GetOr(row.category)
    ensures p.date == r.date.GetOr(row.date) && p.description == r.description.GetOr(row.description)
    ensures p.author == (if r.author.Some? then r.author else row.author) && p.image == image
  {
    PostRow(r.title.GetOr(row.title), r.category.GetOr(row.category), r.date.GetOr(row.date),
            if r.author.Some? then r.author else row.author, r.description.GetOr(row.description), image)
  }

  function ImageOf(row: PostRow): Option<BlobKey> { row.image }

  class PostController {
    var rows: map<nat, PostRow>
    var nextId: nat
    const disk: PublicDisk

    function Images(): ImageColumn
      reads this
    {
      Column(rows, ImageOf)
    }

    ghost predicate Valid()
      reads this, disk
    {
      && disk.Valid()
      && 1 <= nextId && (forall id :: id in rows ==> 1 <= id < nextId)
      && Consistent(Images(), disk.blobs, Prefix)
    }

    constructor (disk: PublicDisk)
      requires disk.Valid()
      ensures Valid() && this.disk == disk && rows == map[]
    {
      this.disk := disk;
      rows := map[];
      nextId := 1;
    }

    /** `index`: every post, newest first. */
    function Index(): (r: seq<(nat, PostRow)>)
      reads this, disk
      requires Valid()
      ensures forall id :: id in rows ==> (id, rows[id]) in r
      ensures forall i :: 0 <= i < |r| ==> r[i].0 in rows && r[i].1 == rows[r[i].0]
      ensures forall i, j :: 0 <= i < j < |r| ==> r[i].0 > r[j].0
    {
      Latest(rows, nextId)
    }

    /** `store`: validate, store an attached image under `posts/`, insert the row, answer 201. */
    method Store(r: PostInput) returns (resp: Response<PostRow>)
      requires Valid()
      modifies this, disk
      ensures Valid()
      ensures StoreErrors(r) != {} ==>
        resp == Invalid(StoreErrors(r)) && rows == old(rows) && disk.blobs == old(disk.blobs)
      ensures StoreErrors(r) == {} ==>
        && resp.Created? && resp.Status() == 201 && resp.id !in old(rows)
        && rows == old(rows)[resp.id := resp.row]
        && resp.row == PostRow(r.title.value, r.category.value, r.date.value, r.author, r.description.value, resp.row.image)
        && (r.image.FileImage? ==>
              && resp.row.image.Some? && resp.row.image.value.prefix == Prefix
              && resp.row.image.value !in old(disk.blobs)
              && disk.blobs == old(disk.blobs) + {resp.row.image.value})
        && (!r.image.FileImage? ==> resp.row.image.None? && disk.blobs == old(disk.blobs))
    {
      var errs := StoreErrors(r);
      if errs != {} {
        return Invalid(errs);
      }
      var image := StoreImage(r.image);
      var id := Add(PostRow(r.title.value, r.category.value, r.date.value, r.author, r.description.value, image));
      resp := Created(id, rows[id]);
    }

    /** The upload of a validated `store`, if any, is stored under `posts/`. */
    method StoreImage(f: ImageField) returns (image: Option<BlobKey>)
      requires Valid()
      modifies disk
      ensures disk.Valid()
      ensures f.FileImage? ==> image.Some? && image.value.prefix == Prefix && image.value !in old(disk.blobs)
      ensures !f.FileImage? ==> image.None?
      ensures disk.blobs == old(disk.blobs) + KeyOf(image)
    {
      image := None;
      if f.FileImage? {
        var key := disk.Store(Prefix);
        image := Some(key);
      }
    }

    /** The row is inserted under the next auto-increment id. */
    method Add(row: PostRow) returns (id: nat)
      requires disk.Valid() && 1 <= nextId && (forall k :: k in rows ==> 1 <= k < nextId)
      requires row.image.Some? ==> row.image.value in disk.blobs
      requires Consistent(Images(), disk.blobs - KeyOf(row.image), Prefix)
      requires row.image.Some? ==> row.image.value.prefix == Prefix
      modifies this
      ensures Valid()
      ensures id == old(nextId) && id !in old(rows) && rows == old(rows)[id := row]
    {
      var before := disk.blobs - KeyOf(row.image);
      assert disk.blobs == before + KeyOf(row.image);
      Insert(Images(), before, Prefix, nextId, row.image);
      ColumnSet(rows, ImageOf, nextId, row);
      rows := rows[nextId := row];
      id := nextId;
      nextId := nextId + 1;
    }

    /**
      `update`: 404 for a missing post.  Only an uploaded file touches the
      image: the old one is deleted and a new key stored; no file, or a null
      image, keeps the current image.
     */
    method Update(id: nat, r: PostInput) returns (resp: Response<PostRow>)
      requires Valid()
      modifies this, disk
      ensures Valid() && nextId == old(nextId)
      ensures id !in old(rows) ==> resp == NotFound && rows == old(rows) && disk.blobs == old(disk.blobs)
      ensures id in old(rows) && UpdateErrors(r) != {} ==>
        resp == Invalid(UpdateErrors(r)) && rows == old(rows) && disk.blobs == old(disk.blobs)
      ensures id in old(rows) && UpdateErrors(r) == {} ==>
        && resp.Ok? && resp.Status() == 200 && resp.id == id
        && rows == old(rows)[id := resp.row]
        && resp.row == Patch(old(rows)[id], r, resp.row.image)
        && (r.image.FileImage? ==>
              && resp.row.image.Some? && resp.row.image.value.prefix == Prefix
              && resp.row.image.value !in old(disk.blobs)
              && disk.blobs == (old(disk.blobs) - KeyOf(old(rows)[id].image)) + {resp.row.image.value})
        && (!r.image.FileImage? ==> resp.row.image == old(rows)[id].image && disk.blobs == old(disk.blobs))
    {
      if id !in rows {
        return NotFound;
      }
      var errs := UpdateErrors(r);
      if errs != {} {
        return Invalid(errs);
      }
      var image := ReplaceImage(id, r.image);
      Set(id, Patch(rows[id], r, image));
      resp := Ok(id, rows[id]);
    }

    /** An upload on `update` deletes the current image and stores the new one; otherwise the image stays. */
    method ReplaceImage(id: nat, f: ImageField) returns (image: Option<BlobKey>)
      requires Valid() && id in rows
      modifies disk
      ensures disk.Valid() && Consistent(Images()[id := image], disk.blobs, Prefix)
      ensures f.FileImage? ==>
        && image.Some? && image.value.prefix == Prefix && image.value !in old(disk.blobs)
        && disk.blobs == (old(disk.blobs) - KeyOf(rows[id].image)) + {image.value}
      ensures !f.FileImage? ==> image == rows[id].image && disk.blobs == old(disk.blobs)
    {
      image := rows[id].image;
      if f.FileImage? {
        if image.Some? {
          disk.Delete(image.value);
        }
        var key := disk.Store(Prefix);
        image := Some(key);
        Replace(Images(), old(disk.blobs), Prefix, id, key);
      } else {
        assert Images()[id := image] == Images();
      }
    }

    /** The row under an existing id is overwritten. */
    method Set(id: nat, row: PostRow)
      requires disk.Valid() && 1 <= nextId && (forall k :: k in rows ==> 1 <= k < nextId)
      requires id in rows && Consistent(Images()[id := row.image], disk.blobs, Prefix)
      modifies this
      ensures Valid() && nextId == old(nextId) && rows == old(rows)[id := row]
    {
      ColumnSet(rows, ImageOf, id, row);
      rows := rows[id := row];
    }

    /** `destroy`: delete the post's image if it has one, then the row; answer 204. */
    method Destroy(id: nat) returns (resp: Response<PostRow>)
      requires Valid()
      modifies this, disk
      ensures Valid() && nextId == old(nextId)
      ensures id !in old(rows) ==> resp == NotFound && rows == old(rows) && disk.blobs == old(disk.blobs)
      ensures id in old(rows) ==>
        && resp == NoContent && resp.Status() == 204
        && rows == old(rows) - {id}
        && disk.blobs == old(disk.blobs) - KeyOf(old(rows)[id].image)
    {
      if id !in rows {
        return NotFound;
      }
      var image := rows[id].image;
      if image.Some? {
        disk.Delete(image.value);
      }
      Remove(Images(), old(disk.blobs), Prefix, id);
      ColumnRemove(rows, ImageOf, id);
      rows := rows - {id};
      resp := NoContent;
    }
  }
}
