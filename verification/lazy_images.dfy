/** The lazy-loading rule of the module script: images carrying a
    `data-src` attribute are watched, and the first time one is seen on
    screen with a non-empty `data-src`, that address is copied to `src` and
    the image is no longer watched. Each image is handled on its own, so
    the model follows one image through the entries delivered for it. */
module LazyImages {
  import opened Wrappers

  /** An image: its `data-src` attribute (absent or present, possibly
      empty), its `src`, and whether it has the `loaded` class. */
  datatype Image = Image(dataSrc: Option<string>, src: string, loaded: bool)

  /** An image together with whether the observer still watches it. */
  datatype Watched = Watched(img: Image, observed: bool)

  /** `dataset.src` is truthy: present and not empty. */
  predicate HasSource(img: Image) {
    img.dataSrc.Some? && img.dataSrc.value != ""
  }

  /** `querySelectorAll('img[data-src]')`: the attribute selector matches any
      image with the attribute, an empty one included. */
  function Observe(img: Image): (w: Watched)
    ensures w.img == img
    ensures w.observed <==> img.dataSrc.Some?
  {
    Watched(img, img.dataSrc.Some?)
  }

  /** What the callback does to an intersecting image with a usable
      source: copies `data-src` into `src` and adds the `loaded` class. */
  function Load(img: Image): (r: Image)
    requires HasSource(img)
    ensures r.src == img.dataSrc.value && r.loaded && r.dataSrc == img.dataSrc
    ensures HasSource(r)
  {
    Image(img.dataSrc, img.dataSrc.value, true)
  }

  /** Loading an image that is already loaded changes nothing. */
  lemma LoadIdempotent(img: Image)
    requires HasSource(img)
    ensures Load(Load(img)) == Load(img)
  {
  }

  /** One intersection entry for the image. A visible image with a usable
      source is loaded and unwatched; any other entry changes nothing. Once
      an image is unwatched the observer delivers no further batches for
      it. An entry for it that was already queued in the same batch runs
      the callback again, but that repeats an assignment which changes
      nothing (`LoadIdempotent`), so the model skips entries for an image
      that is no longer watched. */
  function OnEntry(w: Watched, isIntersecting: bool): (r: Watched)
    ensures !w.observed || !isIntersecting || !HasSource(w.img) ==> r == w
    ensures w.observed && isIntersecting && HasSource(w.img) ==>
              && r.img.src == w.img.dataSrc.value
              && r.img.loaded
              && r.img.dataSrc == w.img.dataSrc
              && !r.observed
  {
    if w.observed && isIntersecting && HasSource(w.img) then
      Watched(Load(w.img), false)
    else w
  }

  /** The image after a run of entries, and how many times its source was
      set. */
  datatype Run = Run(final: Watched, loads: nat)

  /** Feeds the entries in order, counting loads. */
  function RunEntries(w: Watched, entries: seq<bool>): (r: Run)
    ensures r.loads <= 1
    ensures r.final.img.dataSrc == w.img.dataSrc
    ensures r.loads == 1 <==> w.observed && HasSource(w.img) && true in entries
    ensures r.loads == 0 ==> r.final == w
    ensures r.loads == 1 ==> r.final.img.src == w.img.dataSrc.value && r.final.img.loaded && !r.final.observed
    decreases entries
  {
    if entries == [] then Run(w, 0)
    else
      var next := OnEntry(w, entries[0]);
      var rest := RunEntries(next, entries[1..]);
      assert entries == [entries[0]] + entries[1..];
      Run(rest.final, rest.loads + (if next != w then 1 else 0))
  }

  /** An image is loaded at most once however often it scrolls into view,
      and only when it was watched with a usable source. */
  lemma LoadedAtMostOnce(img: Image, entries: seq<bool>)
    ensures RunEntries(Observe(img), entries).loads <= 1
    ensures RunEntries(Observe(img), entries).loads == 1 <==> HasSource(img) && true in entries
  {
  }

  /** An image whose `data-src` is present but empty is watched forever and
      never loads. */
  lemma EmptySourceNeverLoads(src: string, loaded: bool, entries: seq<bool>)
    ensures var w := Observe(Image(Some(""), src, loaded));
            w.observed && RunEntries(w, entries) == Run(w, 0)
  {
  }
}
