/** Training materials: configs, guides and demos, each offered as a file,
    a link or an embedded video. */
module Materials {
  import opened Wrappers

  /** What `MaterialForm` has cleaned before its own `clean` runs. The file
      and the link are nullable; the embed code is a blank-able text. */
  datatype MaterialData = MaterialData(
    title: string,
    description: string,
    category: string,
    file: Option<string>,
    link: Option<string>,
    youtubeEmbed: string)

  /** Python truthiness of an optional text: present and non-empty. */
  predicate Truthy(v: Option<string>) {
    v.Some? && v.value != ""
  }

  const NoSourceMessage := "no file, link or embed"

  /** `MaterialForm.clean`: the form is rejected when none of the three ways
      to reach the material is given; otherwise the data passes through. */
  function Clean(data: MaterialData): (r: Result<MaterialData, string>)
    ensures r.Failure? <==> !Truthy(data.file) && !Truthy(data.link) && data.youtubeEmbed == ""
    ensures r.Success? ==> r.value == data
  {
    if !(Truthy(data.file) || Truthy(data.link) || data.youtubeEmbed != "") then Failure(NoSourceMessage)
    else Success(data)
  }

  /** Any one of the three is enough, whatever the other two hold. */
  lemma AnyOneSourceSuffices(data: MaterialData)
    requires Truthy(data.file) || Truthy(data.link) || data.youtubeEmbed != ""
    ensures Clean(data) == Success(data)
  {
  }

  /** An empty embed string counts as no embed: with no file and no link it
      is rejected just as a missing one would be. */
  lemma EmptyEmbedCountsAsAbsent(title: string, description: string, category: string, link: Option<string>)
    requires !Truthy(link)
    ensures Clean(MaterialData(title, description, category, None, link, "")).Failure?
    ensures Clean(MaterialData(title, description, category, Some(""), link, "")).Failure?
  {
  }
}
