/**
 * The zip container as the core sees it. Parsing belongs to the zip library and
 * is not modelled: an archive is the list of its members, and "opening" bytes as
 * an archive is an input to the model (`Option<Archive>`, `None` when the bytes
 * are not a readable archive).
 */
module Zip {
  import opened Wrappers
  import opened Errors

  /**
   * One member: its stored name, the size its directory entry declares, whether
   * the library can open it at all, the bytes its reader yields, and what the
   * first `min(size, 8 MiB)` of those bytes (the buffer `Product::new` fills)
   * open as when read as an archive themselves.
   */
  datatype Entry = Entry(
    name: string,
    size: nat,
    readable: bool,
    data: seq<byte>,
    nested: Option<Archive>)

  datatype Archive = Archive(entries: seq<Entry>)

  /** `archive.file_names()`, in directory order. */
  function FileNames(a: Archive): (r: seq<string>)
    ensures |r| == |a.entries|
    ensures forall i :: 0 <= i < |r| ==> r[i] == a.entries[i].name
  {
    seq(|a.entries|, i requires 0 <= i < |a.entries| => a.entries[i].name)
  }

  /** `archive.by_index(i)`: the member, or `Invalid` when the library cannot open it. */
  function ByIndex(a: Archive, i: nat): (r: Result<Entry, ZipError>)
    requires i < |a.entries|
    ensures r.Ok? <==> a.entries[i].readable
    ensures r.Ok? ==> r.value == a.entries[i]
  {
    if a.entries[i].readable then Ok(a.entries[i]) else Err(Invalid)
  }

  /** The position of the first member called `name`, if any. */
  function IndexOf(a: Archive, name: string): (r: Option<nat>)
    ensures r.Some? ==> r.value < |a.entries| && a.entries[r.value].name == name
    ensures r.Some? ==> forall j :: 0 <= j < r.value ==> a.entries[j].name != name
    ensures r.None? ==> forall j :: 0 <= j < |a.entries| ==> a.entries[j].name != name
    decreases |a.entries|
  {
    if a.entries == [] then None
    else if a.entries[0].name == name then Some(0)
    else match IndexOf(Archive(a.entries[1..]), name)
      case None => None
      case Some(k) => Some(k + 1)
  }

  /** `archive.by_name(name)`: the member of that name, or `Invalid` when there is none or it cannot be opened. */
  function ByName(a: Archive, name: string): (r: Result<Entry, ZipError>)
    ensures r.Ok? ==> r.value in a.entries && r.value.name == name && r.value.readable
    ensures name in FileNames(a) && r.Err? ==> exists i :: 0 <= i < |a.entries| && a.entries[i].name == name && !a.entries[i].readable
  {
    match IndexOf(a, name)
    case None => Err(Invalid)
    case Some(i) => ByIndex(a, i)
  }
}
