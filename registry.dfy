/** The template entity and the fixed registry of built-in templates
    (client/src/lib/templateManager.ts, lines 1-39). */
module Registry {
  import opened Wrappers

  /** A template record. The optional fields of the TypeScript interface are
      `Option`s; `None` stands for a property that is not set. */
  datatype Template = Template(
    id: string,
    name: string,
    isBuiltIn: bool,
    previewUrl: Option<string>,
    fileUrl: Option<string>,
    fileData: Option<string>)

  /** JavaScript truthiness of an optional string property: it is set and
      is not the empty string. */
  predicate Truthy(field: Option<string>) {
    field.Some? && field.value != ""
  }

  /** A built-in record: shipped with a preview image and a file URL, never
      with inline file data. */
  function BuiltIn(id: string, name: string, preview: string, file: string): Template {
    Template(id, name, true, Some(preview), Some(file), None)
  }

  /** BUILT_IN_TEMPLATES, in registry order. */
  const BuiltIns: seq<Template> := [
    BuiltIn("template-1", "القالب الأول", "/template-previews/preview_1.png", "/templates/قالب_1.xlsx"),
    BuiltIn("template-2", "القالب الثاني", "/template-previews/preview_2.png", "/templates/قالب_2.xlsx"),
    BuiltIn("template-3", "القالب الثالث", "/template-previews/preview_3.png", "/templates/قالب_3.xlsx"),
    BuiltIn("template-4", "القالب الرابع", "/template-previews/preview_4.png", "/templates/قالب_4.xlsx")
  ]

  /** BUILT_IN_TEMPLATES[0].id, the fallback for the active pointer. */
  const DefaultId: string := BuiltIns[0].id

  /** The content type the decoded custom file is labelled with. */
  const SpreadsheetMime: string := "application/vnd.openxmlformats-officedocument.spreadsheetml.sheet"

  /** Whether `id` is the id of some built-in template. */
  predicate IsBuiltInId(id: string) {
    exists k :: 0 <= k < |BuiltIns| && BuiltIns[k].id == id
  }

  /** The registry holds four built-ins, ids `template-1` .. `template-4` in
      that order, each built-in with a non-empty file URL and no file data;
      so the fallback id is `template-1` and the ids are pairwise distinct. */
  lemma BuiltInsShape()
    ensures |BuiltIns| == 4
    ensures forall k :: 0 <= k < 4 ==> BuiltIns[k].id == "template-" + [('1' as int + k) as char]
    ensures forall k :: 0 <= k < 4 ==>
      BuiltIns[k].isBuiltIn && Truthy(BuiltIns[k].fileUrl) && BuiltIns[k].fileData.None?
    ensures DefaultId == "template-1"
    ensures forall j, k :: 0 <= j < k < 4 ==> BuiltIns[j].id != BuiltIns[k].id
  {
  }

  /** Every built-in id starts with `t`: a `custom-` id is never a built-in id. */
  lemma BuiltInIdsStartWithT(id: string)
    requires IsBuiltInId(id)
    ensures |id| > 0 && id[0] == 't'
  {
  }
}
