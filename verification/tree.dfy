/** The directory handle the browser hands out, as a finite tree, and the
    reference description of what a walk over it may see: every file in
    depth-first pre-order, and whether every listing on the way can be read. */
module Tree {

  /** One item yielded by iterating a directory handle's `values()`.
      `File` and `Directory` are the two handle kinds. `ListingError` marks the
      point at which iterating the enclosing directory fails (the directory was
      removed, permission was withdrawn, ...): the entries before it are
      yielded, and then the iteration throws. */
  datatype Entry =
    | File(name: string)
    | Directory(name: string, values: seq<Entry>)
    | ListingError

  /** The files of `e` in depth-first pre-order. A directory contributes the
      files of its listing, in listing order; a failure point contributes
      nothing. */
  ghost function FilesOf(e: Entry): seq<Entry>
  {
    match e
    case File(_) => [e]
    case Directory(_, vs) => FilesIn(vs)
    case ListingError => []
  }

  /** The files of a directory listing, entry after entry. */
  ghost function FilesIn(vs: seq<Entry>): seq<Entry>
  {
    if |vs| == 0 then [] else FilesOf(vs[0]) + FilesIn(vs[1..])
  }

  /** No listing below `e` (nor `e` itself) fails. */
  ghost predicate Readable(e: Entry)
  {
    match e
    case File(_) => true
    case Directory(_, vs) => forall i :: 0 <= i < |vs| ==> Readable(vs[i])
    case ListingError => false
  }

  /** `x` is an entry of the listing `vs`, or of the listing of a directory
      found in it, at any depth. */
  ghost predicate Occurs(x: Entry, vs: seq<Entry>)
  {
    exists i :: 0 <= i < |vs| &&
      (vs[i] == x || (vs[i].Directory? && Occurs(x, vs[i].values)))
  }

  /** The listing of a concatenation is the concatenation of the listings. */
  lemma {:induction false} FilesInAppend(a: seq<Entry>, b: seq<Entry>)
    ensures FilesIn(a + b) == FilesIn(a) + FilesIn(b)
  {
    if |a| == 0 {
      assert a + b == b;
    } else {
      assert (a + b)[0] == a[0];
      assert (a + b)[1..] == a[1..] + b;
      FilesInAppend(a[1..], b);
    }
  }

  /** The pre-order listing is exact: it holds every file found anywhere below
      the listing and nothing else (in particular, never a directory). */
  lemma {:induction false} FilesInIff(vs: seq<Entry>, x: Entry)
    ensures x in FilesIn(vs) <==> x.File? && Occurs(x, vs)
    decreases vs
  {
    if |vs| > 0 {
      FilesInIff(vs[1..], x);
      if vs[0].Directory? {
        FilesInIff(vs[0].values, x);
      }
      OccursCons(x, vs);
    }
  }

  /** Unfolds `Occurs` one listing entry at a time. */
  lemma OccursCons(x: Entry, vs: seq<Entry>)
    requires |vs| > 0
    ensures Occurs(x, vs) <==>
            vs[0] == x || (vs[0].Directory? && Occurs(x, vs[0].values)) || Occurs(x, vs[1..])
  {
  }
}
