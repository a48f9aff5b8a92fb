/** The surface name recorded in the header when the run replaces every bin
    (pfmMisp.cpp:471-490). */
module SurfaceHeader {
  import opened Records

  const AVERAGE_NAME := "AVERAGE MISP SURFACE"
  const MINIMUM_NAME := "MINIMUM MISP SURFACE"
  const MAXIMUM_NAME := "MAXIMUM MISP SURFACE"

  /** The header written after the fit, or None when the header is not
      written: only a replace-all run with a known surface mode renames the
      average surface. */
  function HeaderAfterFit(head: Header, opts: Options): (written: Option<Header>)
    ensures written.Some? <==>
      opts.replaceAll && opts.surface in {MIN_FILTERED_SURFACE, MAX_FILTERED_SURFACE, ALL_DEPTHS_SURFACE}
    ensures written.Some? ==> written.value.(averageFiltName := head.averageFiltName) == head
    // mode 0 names the minimum surface, mode 1 the maximum, mode 2 the average
    ensures written.Some? && opts.surface == MIN_FILTERED_SURFACE ==> written.value.averageFiltName == MINIMUM_NAME
    ensures written.Some? && opts.surface == MAX_FILTERED_SURFACE ==> written.value.averageFiltName == MAXIMUM_NAME
    ensures written.Some? && opts.surface == ALL_DEPTHS_SURFACE ==> written.value.averageFiltName == AVERAGE_NAME
  {
    if !opts.replaceAll then None
    else if opts.surface == ALL_DEPTHS_SURFACE then Some(head.(averageFiltName := AVERAGE_NAME))
    else if opts.surface == MIN_FILTERED_SURFACE then Some(head.(averageFiltName := MINIMUM_NAME))
    else if opts.surface == MAX_FILTERED_SURFACE then Some(head.(averageFiltName := MAXIMUM_NAME))
    else None
  }

  /** The name written tells which surface mode produced the surface: two
      runs that write the same name used the same mode. */
  lemma SurfaceNameIdentifiesMode(head: Header, a: Options, b: Options)
    requires HeaderAfterFit(head, a).Some? && HeaderAfterFit(head, b).Some?
    requires HeaderAfterFit(head, a).value.averageFiltName == HeaderAfterFit(head, b).value.averageFiltName
    ensures a.surface == b.surface
  {
    assert AVERAGE_NAME[0] == 'A' && MINIMUM_NAME[1] == 'I' && MAXIMUM_NAME[1] == 'A';
  }
}
