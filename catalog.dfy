/**
 * The catalog of completed downloads (`load_videos_info`,
 * `save_videos_info` and the append in `download_video`, main.py). The
 * backing JSON file is a value: absent, unreadable, or a list of items.
 */
module Catalog {

  /** The JSON value stored under a record's "filename" key. */
  datatype FilenameValue = Missing | Text(s: string) | NotText

  /** One download record, as `download_video` writes it. */
  datatype Video = Video(
    title: string,
    duration: int,
    uploader: string,
    description: string,
    filename: FilenameValue,
    downloadDate: string,
    filesize: int)

  /** An element of the stored JSON list: a record object, or any other JSON value. */
  datatype StoredItem = Object(video: Video) | NotObject

  /**
   * The catalog file: absent, unreadable (malformed JSON, or JSON that is not
   * a list), or a list of items.
   */
  datatype CatalogFile = NoFile | Unreadable | Stored(items: seq<StoredItem>)

  /** The placeholder name given to a record whose filename is missing or not a string. */
  const UnknownFilename: string := "未知文件名"

  /** The filename a record has after loading. */
  function NormalizedFilename(f: FilenameValue): (r: FilenameValue)
    ensures r.Text?
    ensures f.Text? ==> r == f
    ensures !f.Text? ==> r == Text(UnknownFilename)
  {
    if f.Text? then f else Text(UnknownFilename)
  }

  function Normalized(v: Video): Video {
    v.(filename := NormalizedFilename(v.filename))
  }

  /** Every record's filename is a string. */
  predicate AllNamed(videos: seq<Video>) {
    forall i :: 0 <= i < |videos| ==> videos[i].filename.Text?
  }

  predicate AllObjects(items: seq<StoredItem>) {
    forall i :: 0 <= i < |items| ==> items[i].Object?
  }

  /**
   * What `load_videos_info` returns for `file`: the stored records with their
   * filenames normalized; the empty list when the file is absent or
   * unreadable, or when some item is not an object (reading its filename
   * raises and the whole load degrades to empty).
   */
  function Loaded(file: CatalogFile): (videos: seq<Video>)
    ensures AllNamed(videos)
    ensures file.Stored? && AllObjects(file.items) ==> |videos| == |file.items|
    ensures file.Stored? && AllObjects(file.items) ==>
      forall i :: 0 <= i < |videos| ==> videos[i] == Normalized(file.items[i].video)
    ensures !(file.Stored? && AllObjects(file.items)) ==> videos == []
  {
    match file
    case Stored(items) =>
      if AllObjects(items) then seq(|items|, i requires 0 <= i < |items| => Normalized(items[i].video))
      else []
    case _ => []
  }

  /** What `save_videos_info(videos)` writes. */
  function Saved(videos: seq<Video>): (file: CatalogFile)
    ensures file.Stored? && |file.items| == |videos|
    ensures forall i :: 0 <= i < |videos| ==> file.items[i] == Object(videos[i])
  {
    Stored(seq(|videos|, i requires 0 <= i < |videos| => Object(videos[i])))
  }

  /** Saving records whose filenames are strings and loading them back gives the same records. */
  lemma SaveLoadRoundTrip(videos: seq<Video>)
    requires AllNamed(videos)
    ensures Loaded(Saved(videos)) == videos
  {
    var back := Loaded(Saved(videos));
    assert |back| == |videos|;
    forall i | 0 <= i < |videos| ensures back[i] == videos[i] {
      assert Saved(videos).items[i] == Object(videos[i]);
    }
  }

  /** Loading what a load produced changes nothing: normalization is idempotent. */
  lemma LoadIdempotent(file: CatalogFile)
    ensures Loaded(Saved(Loaded(file))) == Loaded(file)
  {
    SaveLoadRoundTrip(Loaded(file));
  }

  /**
   * The append of `download_video`: load, append `v`, save. When the save
   * fails the error is swallowed and the file is left as it was.
   */
  function Append(file: CatalogFile, v: Video, saveSucceeds: bool): (file': CatalogFile)
    ensures !saveSucceeds ==> file' == file
  {
    if saveSucceeds then Saved(Loaded(file) + [v]) else file
  }

  /**
   * After a successful append of a record with a string filename, the catalog
   * reads as the old catalog plus that record at the end. The records of an
   * unreadable file are lost: the file then holds the new record alone.
   */
  lemma AppendExtends(file: CatalogFile, v: Video)
    requires v.filename.Text?
    ensures Loaded(Append(file, v, true)) == Loaded(file) + [v]
    ensures file.Unreadable? ==> Loaded(Append(file, v, true)) == [v]
  {
    var s := Loaded(file) + [v];
    assert AllNamed(s) by {
      forall i | 0 <= i < |s| ensures s[i].filename.Text? {
        if i < |Loaded(file)| { assert s[i] == Loaded(file)[i]; }
      }
    }
    SaveLoadRoundTrip(s);
  }

  /**
   * `load_videos_info`: reads the list and rewrites each record's filename in
   * place; an item that is not an object aborts the load with the empty list.
   */
  method LoadVideosInfo(file: CatalogFile) returns (videos: seq<Video>)
    ensures videos == Loaded(file)
  {
    if !file.Stored? {
      return [];
    }
    var items := file.items;
    var i := 0;
    while i < |items|
      invariant 0 <= i <= |items| == |file.items|
      invariant forall j :: 0 <= j < i ==> file.items[j].Object? && items[j] == Object(Normalized(file.items[j].video))
      invariant forall j :: i <= j < |items| ==> items[j] == file.items[j]
    {
      match items[i]
      case NotObject =>
        return [];
      case Object(video) =>
        if video.filename.Text? {
          items := items[i := Object(video.(filename := Text(video.filename.s)))];
        } else {
          items := items[i := Object(video.(filename := Text(UnknownFilename)))];
        }
      i := i + 1;
    }
    videos := seq(|items|, j requires 0 <= j < |items| => items[j].video);
  }
}
