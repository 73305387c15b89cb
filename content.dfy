/** A documentation page as the content layer delivers it (`allDocs` is a `seq<Doc>`). */
module Content {
  import opened Wrappers

  /** `slugAsParams` is the page's path below `/docs`, e.g. "components/file-upload". */
  datatype Doc = Doc(slugAsParams: string, title: string, description: Option<string>)
}
