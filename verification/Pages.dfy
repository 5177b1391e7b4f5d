/** The size of a page. */
module Pages {
  const PAGE: nat := 4096
}
