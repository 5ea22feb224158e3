/**
  `EventController`: the `events` table and its images under `events/` on the
  public disk.  `store` validates every field, `update` validates only the
  fields sent ("sometimes"), and both store an attached image before writing
  the row; `update` first deletes the image the row had.
 */
module EventApi {
  import opened Wrappers
  import opened Text
  import opened Storage
  import opened Validation
  import opened Images

  const Prefix: string := "events"

  /** The types `store` accepts: jpeg, png, jpg and webp. */
  const StoreTypes: set<FileType> := {Jpeg, Png, Webp}

  /** The types `update` accepts: jpeg, png and jpg only. */
  const UpdateTypes: set<FileType> := {Jpeg, Png}

  const MaxImageKb: nat := 2048

  datatype EventRow = EventRow(title: string, date: string, month: string, time: string, location: string, image: Option<BlobKey>)

  datatype EventInput = EventInput(
    title: Option<string>, date: Option<string>, month: Option<string>,
    time: Option<string>, location: Option<string>, image: ImageField)

  /** `required|string|min:3` (title and location) */
  predicate LongEnough(v: Option<string>) { Required(v) && |v.value| >= 3 }

  /** `required|numeric|min:1|max:31` */
  predicate DayOk(v: Option<string>) { Required(v) && DayRule(v.value) }

  /** `required|regex:/^(Jan|...|Dec)$/i` */
  predicate MonthOk(v: Option<string>) { Required(v) && MonthRule(v.value) }

  /** `required|regex:/^[0-9]{1,2}\.[0-9]{2} (am|pm)$/i` */
  predicate TimeOk(v: Option<string>) { Required(v) && TimeRule(v.value) }

  /** `nullable|image|mimes:...|max:2048`: only an uploaded file is checked. */
  predicate ImageOk(f: ImageField, types: set<FileType>) {
    f.FileImage? ==> ImageRule(f.file, types, MaxImageKb)
  }

  /** The fields `store` reports as failing. */
  function StoreErrors(r: EventInput): (errs: set<string>)
    ensures errs == {} <==>
      LongEnough(r.title) && DayOk(r.date) && MonthOk(r.month) && TimeOk(r.time)
      && LongEnough(r.location) && ImageOk(r.image, StoreTypes)
  {
    Failing("title", LongEnough(r.title)) + Failing("date", DayOk(r.date))
    + Failing("month", MonthOk(r.month)) + Failing("time", TimeOk(r.time))
    + Failing("location", LongEnough(r.location)) + Failing("image", ImageOk(r.image, StoreTypes))
  }

  /** The fields `update` reports as failing: each is checked only when sent. */
  function UpdateErrors(r: EventInput): (errs: set<string>)
    ensures errs == {} <==>
      IfSent(r.title, LongEnough(r.title)) && IfSent(r.date, DayOk(r.date))
      && IfSent(r.month, MonthOk(r.month)) && IfSent(r.time, TimeOk(r.time))
      && IfSent(r.location, LongEnough(r.location)) && ImageOk(r.image, UpdateTypes)
  {
    Failing("title", IfSent(r.title, LongEnough(r.title))) + Failing("date", IfSent(r.date, DayOk(r.date)))
    + Failing("month", IfSent(r.month, MonthOk(r.month))) + Failing("time", IfSent(r.time, TimeOk(r.time)))
    + Failing("location", IfSent(r.location, LongEnough(r.location))) + Failing("image", ImageOk(r.image, UpdateTypes))
  }

  /** `$event->update($data)`: sent fields overwrite, absent fields keep their value. */
  function Patch(row: EventRow, r: EventInput, image: Option<BlobKey>): (p: EventRow)
    ensures p.title == r.title.GetOr(row.title) && p.date == r.date.GetOr(row.date)
    ensures p.month == r.month.GetOr(row.month) && p.time == r.time.GetOr(row.time)
    ensures p.location == r.location.GetOr(row.location) && p.image == image
  {
    EventRow(r.title.GetOr(row.title), r.date.GetOr(row.date), r.month.GetOr(row.month),
             r.time.GetOr(row.time), r.location.GetOr(row.location), image)
  }

  function ImageOf(row: EventRow): Option<BlobKey> { row.image }

  class EventController {
    var rows: map<nat, EventRow>
    var nextId: nat
    const disk: PublicDisk

    function Images(): ImageColumn
      reads this
    {
      Column(rows, ImageOf)
    }

    /** Ids are handed out in order, and no row references a key that is not on the disk. */
    ghost predicate Valid()
      reads this, disk
    {
      && disk.Valid()
      && 1 <= nextId && (forall id :: id in rows ==> 1 <= id < nextId)
      && Consistent(Images(), disk.blobs, Prefix)
    }

    constructor (disk: PublicDisk)
      requires disk.Valid()
      ensures Valid() && this.disk == disk && rows == map[]
    {
      this.disk := disk;
      rows := map[];
      nextId := 1;
    }

    /** `index`: every event, newest first. */
    function Index(): (r: seq<(nat, EventRow)>)
      reads this, disk
      requires Valid()
      ensures forall id :: id in rows ==> (id, rows[id]) in r
      ensures forall i :: 0 <= i < |r| ==> r[i].0 in rows && r[i].1 == rows[r[i].0]
      ensures forall i, j :: 0 <= i < j < |r| ==> r[i].0 > r[j].0
    {
      Latest(rows, nextId)
    }

    /** `store`: validate everything, store an attached image under `events/`, insert the row, answer 201. */
    method Store(r: EventInput) returns (resp: Response<EventRow>)
      requires Valid()
      modifies this, disk
      ensures Valid()
      ensures StoreErrors(r) != {} ==>
        resp == Invalid(StoreErrors(r)) && rows == old(rows) && disk.blobs == old(disk.blobs)
      ensures StoreErrors(r) == {} ==>
        && resp.Created? && resp.Status() == 201 && resp.id !in old(rows)
        && rows == old(rows)[resp.id := resp.row]
        && resp.row == EventRow(r.title.value, r.date.value, r.month.value, r.time.value, r.location.value, resp.row.image)
        && (r.image.FileImage? ==>
              && resp.row.image.Some? && resp.row.image.value.prefix == Prefix
              && resp.row.image.value !in old(disk.blobs)
              && disk.blobs == old(disk.blobs) + {resp.row.image.value})
        && (!r.image.FileImage? ==> resp.row.image.None? && disk.blobs == old(disk.blobs))
    {
      var errs := StoreErrors(r);
      if errs != {} {
        return Invalid(errs);
      }
      var image := StoreImage(r.image);
      var id := Add(EventRow(r.title.value, r.date.value, r.month.value, r.time.value, r.location.value, image));
      resp := Created(id, rows[id]);
    }

    /** The upload of a validated `store`, if any, is stored under `events/`. */
    method StoreImage(f: ImageField) returns (image: Option<BlobKey>)
      requires Valid()
      modifies disk
      ensures disk.Valid()
      ensures f.FileImage? ==> image.Some? && image.value.prefix == Prefix && image.value !in old(disk.blobs)
      ensures !f.FileImage? ==> image.None?
      ensures disk.blobs == old(disk.blobs) + KeyOf(image)
    {
      image := None;
      if f.FileImage? {
        var key := disk.Store(Prefix);
        image := Some(key);
      }
    }

    /** The row is inserted under the next auto-increment id. */
    method Add(row: EventRow) returns (id: nat)
      requires disk.Valid() && 1 <= nextId && (forall k :: k in rows ==> 1 <= k < nextId)
      requires row.image.Some? ==> row.image.value in disk.blobs
      requires Consistent(Images(), disk.blobs - KeyOf(row.image), Prefix)
      requires row.image.Some? ==> row.image.value.prefix == Prefix
      modifies this
      ensures Valid()
      ensures id == old(nextId) && id !in old(rows) && rows == old(rows)[id := row]
    {
      var before := disk.blobs - KeyOf(row.image);
      assert disk.blobs == before + KeyOf(row.image);
      Insert(Images(), before, Prefix, nextId, row.image);
      ColumnSet(rows, ImageOf, nextId, row);
      rows := rows[nextId := row];
      id := nextId;
      nextId := nextId + 1;
    }

    /**
      `update`: a row that does not exist is 404.  With a file attached, the
      row's old image is deleted and a new key under `events/` is stored; a
      null image is written as null (its blob is not deleted); no image keeps
      the old one.  Absent fields keep their values.
     */
    method Update(id: nat, r: EventInput) returns (resp: Response<EventRow>)
      requires Valid()
      modifies this, disk
      ensures Valid() && nextId == old(nextId)
      ensures id !in old(rows) ==> resp == NotFound && rows == old(rows) && disk.blobs == old(disk.blobs)
      ensures id in old(rows) && UpdateErrors(r) != {} ==>
        resp == Invalid(UpdateErrors(r)) && rows == old(rows) && disk.blobs == old(disk.blobs)
      ensures id in old(rows) && UpdateErrors(r) == {} ==>
        && resp.Ok? && resp.Status() == 200 && resp.id == id
        && rows == old(rows)[id := resp.row]
        && resp.row == Patch(old(rows)[id], r, resp.row.image)
        && (r.image.FileImage? ==>
              && resp.row.image.Some? && resp.row.image.value.prefix == Prefix
              && resp.row.image.value !in old(disk.blobs)
              && disk.blobs == (old(disk.blobs) - KeyOf(old(rows)[id].image)) + {resp.row.image.value})
        && (r.image.NullImage? ==> resp.row.image.None? && disk.blobs == old(disk.blobs))
        && (r.image.NoImage? ==> resp.row.image == old(rows)[id].image && disk.blobs == old(disk.blobs))
    {
      if id !in rows {
        return NotFound;
      }
      var errs := UpdateErrors(r);
      if errs != {} {
        return Invalid(errs);
      }
      var image := ReplaceImage(id, r.image);
      Set(id, Patch(rows[id], r, image));
      resp := Ok(id, rows[id]);
    }

    /**
      An upload on `update` deletes the current image and stores the new one;
      a null image clears the reference and leaves the file on the disk; no
      image keeps the current one.
     */
    method ReplaceImage(id: nat, f: ImageField) returns (image: Option<BlobKey>)
      requires Valid() && id in rows
      modifies disk
      ensures disk.Valid() && Consistent(Images()[id := image], disk.blobs, Prefix)
      ensures f.FileImage? ==>
        && image.Some? && image.value.prefix == Prefix && image.value !in old(disk.blobs)
        && disk.blobs == (old(disk.blobs) - KeyOf(rows[id].image)) + {image.value}
      ensures f.NullImage? ==> image.None? && disk.blobs == old(disk.blobs)
      ensures f.NoImage? ==> image == rows[id].image && disk.blobs == old(disk.blobs)
    {
      image := rows[id].image;
      if f.FileImage? {
        if image.Some? {
          disk.Delete(image.value);
        }
        var key := disk.Store(Prefix);
        image := Some(key);
        Replace(Images(), old(disk.blobs), Prefix, id, key);
      } else if f.NullImage? {
        image := None;
        Clear(Images(), disk.blobs, Prefix, id);
      } else {
        assert Images()[id := image] == Images();
      }
    }

    /** The row under an existing id is overwritten. */
    method Set(id: nat, row: EventRow)
      requires disk.Valid() && 1 <= nextId && (forall k :: k in rows ==> 1 <= k < nextId)
      requires id in rows && Consistent(Images()[id := row.image], disk.blobs, Prefix)
      modifies this
      ensures Valid() && nextId == old(nextId) && rows == old(rows)[id := row]
    {
      ColumnSet(rows, ImageOf, id, row);
      rows := rows[id := row];
    }

    /** `destroy`: delete the row's image if it has one, then the row; answer 204. */
    method Destroy(id: nat) returns (resp: Response<EventRow>)
      requires Valid()
      modifies this, disk
      ensures Valid() && nextId == old(nextId)
      ensures id !in old(rows) ==> resp == NotFound && rows == old(rows) && disk.blobs == old(disk.blobs)
      ensures id in old(rows) ==>
        && resp == NoContent && resp.Status() == 204
        && rows == old(rows) - {id}
        && disk.blobs == old(disk.blobs) - KeyOf(old(rows)[id].image)
    {
      if id !in rows {
        return NotFound;
      }
      var image := rows[id].image;
      if image.Some? {
        disk.Delete(image.value);
      }
      Remove(Images(), old(disk.blobs), Prefix, id);
      ColumnRemove(rows, ImageOf, id);
      rows := rows - {id};
      resp := NoContent;
    }
  }
}
