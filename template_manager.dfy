/** The template catalogue: the custom-template list kept under the key
    `custom_templates`, the active pointer kept under `active_template_id`,
    and the operations of `TemplateManager` over them
    (client/src/lib/templateManager.ts, lines 41-124). */
module TemplateManager {
  import opened Wrappers
  import opened Registry

  // ---------------------------------------------------------------------------
  // The list primitives the manager uses: findIndex, find, filter
  // ---------------------------------------------------------------------------

  /** Whether some entry of `ts` has id `id`. */
  predicate HasId(ts: seq<Template>, id: string) {
    exists k :: 0 <= k < |ts| && ts[k].id == id
  }

  /** `i` is the index of the first entry of `ts` with id `id`. */
  predicate FirstWithId(ts: seq<Template>, id: string, i: int) {
    0 <= i < |ts| && ts[i].id == id && forall j :: 0 <= j < i ==> ts[j].id != id
  }

  /** `Array.prototype.findIndex` on the id: the first index holding `id`,
      or `None` (the source's -1) when there is none. */
  function FindIndex(ts: seq<Template>, id: string): (r: Option<nat>)
    ensures r.Some? ==> FirstWithId(ts, id, r.value)
    ensures r.None? <==> !HasId(ts, id)
    decreases |ts|
  {
    if ts == [] then None
    else if ts[0].id == id then Some(0)
    else match FindIndex(ts[1..], id)
      case None => None
      case Some(i) => Some(i + 1)
  }

  /** `Array.prototype.find` on the id: the first entry holding `id`. */
  function Find(ts: seq<Template>, id: string): (r: Option<Template>)
    ensures r.None? <==> !HasId(ts, id)
    ensures r.Some? ==> exists i :: FirstWithId(ts, id, i) && r.value == ts[i]
    decreases |ts|
  {
    if ts == [] then None
    else if ts[0].id == id then Some(ts[0])
    else
      var r := Find(ts[1..], id);
      assert r.Some? ==> exists i :: FirstWithId(ts[1..], id, i) && r.value == ts[1..][i];
      assert forall i :: FirstWithId(ts[1..], id, i) ==> FirstWithId(ts, id, i + 1);
      r
  }

  /** Searching a concatenation looks in the second part only when the first
      has no entry with the id: an earlier entry shadows a later one. */
  lemma {:induction false} FindAppend(a: seq<Template>, b: seq<Template>, id: string)
    ensures Find(a + b, id) == if HasId(a, id) then Find(a, id) else Find(b, id)
    decreases |a|
  {
    if a != [] {
      assert (a + b)[1..] == a[1..] + b;
      FindAppend(a[1..], b, id);
      if a[0].id != id {
        assert HasId(a, id) <==> HasId(a[1..], id) by {
          forall k | 0 < k < |a| && a[k].id == id ensures a[1..][k - 1].id == id { }
        }
      }
    } else {
      assert a + b == b;
    }
  }

  /** The list with the template put in: at the index of the first entry with
      the same id when there is one, else at the end (lines 64-75). */
  function Upserted(ts: seq<Template>, t: Template): (r: seq<Template>)
    ensures forall i :: FirstWithId(ts, t.id, i) ==> r == ts[i := t]
    ensures !HasId(ts, t.id) ==> r == ts + [t]
    ensures |r| == if HasId(ts, t.id) then |ts| else |ts| + 1
  {
    match FindIndex(ts, t.id)
    case Some(i) => ts[i := t]
    case None => ts + [t]
  }

  /** After an upsert the template is what a search for its id finds. */
  lemma FindUpserted(ts: seq<Template>, t: Template)
    ensures Find(Upserted(ts, t), t.id) == Some(t)
  {
    var r := Upserted(ts, t);
    if HasId(ts, t.id) {
      var i := FindIndex(ts, t.id).value;
      assert FirstWithId(r, t.id, i);
      var f := Find(r, t.id);
      var j :| FirstWithId(r, t.id, j) && f.value == r[j];
      assert i == j;
    } else {
      assert FirstWithId(r, t.id, |ts|);
      var f := Find(r, t.id);
      var j :| FirstWithId(r, t.id, j) && f.value == r[j];
      assert j == |ts|;
    }
  }

  /** Upserting the same template twice is the same as upserting it once. */
  lemma UpsertIdempotent(ts: seq<Template>, t: Template)
    ensures Upserted(Upserted(ts, t), t) == Upserted(ts, t)
  {
    var r := Upserted(ts, t);
    if HasId(ts, t.id) {
      var i := FindIndex(ts, t.id).value;
      assert FirstWithId(r, t.id, i);
    } else {
      assert FirstWithId(r, t.id, |ts|);
    }
  }

  /** `filter((t) => t.id !== id)`: the entries with another id, in order. */
  function Without(ts: seq<Template>, id: string): (r: seq<Template>)
    ensures forall k :: 0 <= k < |r| ==> r[k].id != id
    ensures forall x :: x in r <==> x in ts && x.id != id
    ensures !HasId(ts, id) ==> r == ts
    ensures |r| <= |ts|
    decreases |ts|
  {
    if ts == [] then []
    else if ts[0].id == id then Without(ts[1..], id)
    else
      assert !HasId(ts, id) ==> !HasId(ts[1..], id) by {
        if HasId(ts[1..], id) {
          var k :| 0 <= k < |ts| - 1 && ts[1..][k].id == id;
          assert ts[k + 1].id == id;
        }
      }
      assert ts == [ts[0]] + ts[1..];
      [ts[0]] + Without(ts[1..], id)
  }

  /** The filter keeps the original order: it distributes over concatenation,
      so the entries kept from an earlier part stay before those kept from a
      later part. */
  lemma {:induction false} WithoutAppend(a: seq<Template>, b: seq<Template>, id: string)
    ensures Without(a + b, id) == Without(a, id) + Without(b, id)
    decreases |a|
  {
    if a == [] {
      assert a + b == b;
    } else {
      assert (a + b)[1..] == a[1..] + b;
      WithoutAppend(a[1..], b, id);
    }
  }

  /** After the filter no entry has the id, so a search for it finds nothing. */
  lemma FindWithout(ts: seq<Template>, id: string)
    ensures Find(Without(ts, id), id) == None
  {
  }

  // ---------------------------------------------------------------------------
  // What the two store keys read as
  // ---------------------------------------------------------------------------

  /** The value under `custom_templates`: no value, the empty string, a
      string `JSON.parse` throws on, or a parsed list. */
  datatype StoredList = Absent | Blank | Unparsable | Stored(templates: seq<Template>)

  /** `getCustomTemplates` (lines 54-62): the stored list, and an empty list
      when the key is missing, the string is empty or it does not parse. */
  function CustomsOf(s: StoredList): (r: seq<Template>)
    ensures s.Stored? ==> r == s.templates
    ensures s.Absent? || s.Blank? || s.Unparsable? ==> r == []
  {
    match s
    case Stored(ts) => ts
    case _ => []
  }

  /** `getAllTemplates` (lines 45-48): the built-ins, then the custom list. */
  function Catalog(customs: seq<Template>): (r: seq<Template>)
    ensures |r| == |BuiltIns| + |customs|
    ensures r[..|BuiltIns|] == BuiltIns && r[|BuiltIns|..] == customs
  {
    BuiltIns + customs
  }

  /** The catalogue lists the four built-ins first, in registry order, then
      every custom template in stored order; nothing else. */
  lemma CatalogShape(customs: seq<Template>)
    ensures |Catalog(customs)| == |BuiltIns| + |customs| == 4 + |customs|
    ensures Catalog(customs)[..4] == BuiltIns
    ensures Catalog(customs)[4..] == customs
    ensures forall k :: 0 <= k < 4 ==> Catalog(customs)[k].isBuiltIn
  {
  }

  /** When no custom template reuses a built-in id, each built-in id occurs
      exactly once in the catalogue, at its registry position. */
  lemma BuiltInIdsOnce(customs: seq<Template>, k: nat, i: nat)
    requires forall c :: c in customs ==> !IsBuiltInId(c.id)
    requires k < |BuiltIns| && i < |Catalog(customs)|
    ensures Catalog(customs)[i].id == BuiltIns[k].id <==> i == k
  {
  }

  /** `getActiveTemplateId` (lines 87-89): the stored pointer when it is a
      non-empty string, `template-1` otherwise. */
  function ActiveIdOf(raw: Option<string>): (r: string)
    ensures raw.Some? && raw.value != "" ==> r == raw.value
    ensures raw.None? || raw.value == "" ==> r == DefaultId
    ensures r != ""
  {
    BuiltInsShape();
    if raw.Some? && raw.value != "" then raw.value else DefaultId
  }

  /** A built-in always shadows a custom template with the same id: finding
      a built-in id in the catalogue yields the built-in. */
  lemma BuiltInShadows(customs: seq<Template>, k: nat)
    requires k < |BuiltIns|
    ensures Find(Catalog(customs), BuiltIns[k].id) == Some(BuiltIns[k])
  {
    BuiltInsShape();
    FindAppend(BuiltIns, customs, BuiltIns[k].id);
    assert HasId(BuiltIns, BuiltIns[k].id);
    var j :| FirstWithId(BuiltIns, BuiltIns[k].id, j) && Find(BuiltIns, BuiltIns[k].id).value == BuiltIns[j];
    assert j == k;
  }

  /** A pointer naming no template resolves to nothing, without error. */
  lemma StalePointerFindsNothing(customs: seq<Template>, raw: Option<string>)
    requires !IsBuiltInId(ActiveIdOf(raw)) && !HasId(customs, ActiveIdOf(raw))
    ensures Find(Catalog(customs), ActiveIdOf(raw)) == None
  {
  }

  // ---------------------------------------------------------------------------
  // Building the record of an uploaded file (lines 104-112)
  // ---------------------------------------------------------------------------

  /** The decimal digits of `n`, as a template literal prints a number. */
  function DecimalString(n: nat): (s: string)
    ensures |s| >= 1
    ensures forall k :: 0 <= k < |s| ==> '0' <= s[k] <= '9'
    decreases n
  {
    if n < 10 then [('0' as int + n) as char]
    else DecimalString(n / 10) + [('0' as int + n % 10) as char]
  }

  /** The number a string of decimal digits denotes. */
  function DecimalValue(s: string): nat
    requires forall k :: 0 <= k < |s| ==> '0' <= s[k] <= '9'
    decreases |s|
  {
    if s == [] then 0 else DecimalValue(s[..|s| - 1]) * 10 + (s[|s| - 1] as int - '0' as int)
  }

  /** Reading the printed digits back gives the number. */
  lemma {:induction false} DecimalValueOfString(n: nat)
    ensures DecimalValue(DecimalString(n)) == n
    decreases n
  {
    if n >= 10 {
      var s := DecimalString(n);
      assert s[..|s| - 1] == DecimalString(n / 10);
      DecimalValueOfString(n / 10);
    }
  }

  /** Different numbers print differently. */
  lemma DecimalStringInjective(m: nat, n: nat)
    requires DecimalString(m) == DecimalString(n)
    ensures m == n
  {
    DecimalValueOfString(m);
    DecimalValueOfString(n);
  }

  /** The id of a template ingested at `timestamp` (`Date.now()`):
      `custom-` followed by the decimal digits of the timestamp. */
  function CustomId(timestamp: nat): (id: string)
    ensures |id| > 7 && id[..7] == "custom-"
    ensures forall k :: 7 <= k < |id| ==> '0' <= id[k] <= '9'
    ensures DecimalValue(id[7..]) == timestamp
  {
    var id := "custom-" + DecimalString(timestamp);
    assert id[7..] == DecimalString(timestamp);
    DecimalValueOfString(timestamp);
    id
  }

  /** Ingested ids are never built-in ids, and two ingestions at different
      times get different ids (equal timestamps give equal ids). */
  lemma CustomIdProperties(t1: nat, t2: nat)
    ensures !IsBuiltInId(CustomId(t1))
    ensures CustomId(t1) == CustomId(t2) <==> t1 == t2
  {
    if IsBuiltInId(CustomId(t1)) {
      BuiltInIdsStartWithT(CustomId(t1));
    }
    if CustomId(t1) == CustomId(t2) {
      assert DecimalString(t1) == CustomId(t1)[7..] == CustomId(t2)[7..] == DecimalString(t2);
      DecimalStringInjective(t1, t2);
    }
  }

  /** `pat` occurs in `s` starting at index `i`. */
  predicate OccursAt(s: string, pat: string, i: int) {
    0 <= i && i + |pat| <= |s| && s[i..i + |pat|] == pat
  }

  /** `i` is the index of the first occurrence of `pat` in `s`. */
  predicate FirstOccurrence(s: string, pat: string, i: int) {
    OccursAt(s, pat, i) && forall j :: 0 <= j < i ==> !OccursAt(s, pat, j)
  }

  /** `s.replace(pat, '')` with a string pattern: the first occurrence of
      `pat` removed, if any. */
  function RemoveFirst(s: string, pat: string): string
    decreases |s|
  {
    if pat == [] || |s| < |pat| then s
    else if s[..|pat|] == pat then s[|pat|..]
    else [s[0]] + RemoveFirst(s[1..], pat)
  }

  /** An occurrence in the tail is an occurrence one index further in the text. */
  lemma OccursInTail(s: string, pat: string, j: nat)
    requires s != []
    ensures OccursAt(s[1..], pat, j) <==> OccursAt(s, pat, j + 1)
  {
  }

  /** Removing a pattern that occurs first at `i` cuts exactly that occurrence. */
  lemma {:induction false} RemoveFirstAt(s: string, pat: string, i: nat)
    requires pat != [] && FirstOccurrence(s, pat, i)
    ensures RemoveFirst(s, pat) == s[..i] + s[i + |pat|..]
    decreases i
  {
    if i > 0 {
      assert !OccursAt(s, pat, 0);
      forall j: nat | j < i - 1 ensures !OccursAt(s[1..], pat, j) {
        OccursInTail(s, pat, j);
      }
      OccursInTail(s, pat, i - 1);
      RemoveFirstAt(s[1..], pat, i - 1);
      assert s[..|pat|] != pat;
      assert RemoveFirst(s, pat) == [s[0]] + RemoveFirst(s[1..], pat);
      assert s[..i] + s[i + |pat|..] == [s[0]] + (s[1..][..i - 1] + s[1..][i - 1 + |pat|..]);
    }
  }

  /** A pattern that does not occur leaves the text unchanged. */
  lemma {:induction false} RemoveFirstAbsent(s: string, pat: string)
    requires forall j :: 0 <= j <= |s| - |pat| ==> !OccursAt(s, pat, j)
    ensures RemoveFirst(s, pat) == s
    decreases |s|
  {
    if pat != [] && |s| >= |pat| {
      assert !OccursAt(s, pat, 0);
      forall j: nat | j <= |s| - 1 - |pat| ensures !OccursAt(s[1..], pat, j) {
        OccursInTail(s, pat, j);
      }
      RemoveFirstAbsent(s[1..], pat);
    }
  }

  /** Both cases of `RemoveFirst` at once, for every index. */
  lemma RemoveFirstCases(s: string, pat: string)
    requires pat != []
    ensures forall i :: FirstOccurrence(s, pat, i) ==> RemoveFirst(s, pat) == s[..i] + s[i + |pat|..]
    ensures (forall j :: 0 <= j <= |s| - |pat| ==> !OccursAt(s, pat, j)) ==> RemoveFirst(s, pat) == s
  {
    forall i | FirstOccurrence(s, pat, i)
      ensures RemoveFirst(s, pat) == s[..i] + s[i + |pat|..]
    {
      RemoveFirstAt(s, pat, i);
    }
    if forall j :: 0 <= j <= |s| - |pat| ==> !OccursAt(s, pat, j) {
      RemoveFirstAbsent(s, pat);
    }
  }

  const XlsxExtension: string := ".xlsx"

  /** The display name of an uploaded file: its name with the first `.xlsx`
      cut out, or the name itself when `.xlsx` does not occur in it. */
  function DisplayName(fileName: string): (name: string)
    ensures forall i :: FirstOccurrence(fileName, XlsxExtension, i) ==>
      name == fileName[..i] + fileName[i + |XlsxExtension|..]
    ensures (forall j :: 0 <= j <= |fileName| - |XlsxExtension| ==> !OccursAt(fileName, XlsxExtension, j))
      ==> name == fileName
  {
    RemoveFirstCases(fileName, XlsxExtension);
    RemoveFirst(fileName, XlsxExtension)
  }

  /** A name accepted by the upload page ends in `.xlsx`; when that is its
      only occurrence the display name is the stem. An earlier occurrence is
      what gets removed instead: `a.xlsx.xlsx` is shown as `a.xlsx`. */
  lemma DisplayNameOfUpload(stem: string)
    ensures (forall j :: 0 <= j < |stem| ==> !OccursAt(stem + XlsxExtension, XlsxExtension, j))
      ==> DisplayName(stem + XlsxExtension) == stem
    ensures DisplayName("a.xlsx.xlsx") == "a.xlsx"
  {
    var s := stem + XlsxExtension;
    assert OccursAt(s, XlsxExtension, |stem|);
    if forall j :: 0 <= j < |stem| ==> !OccursAt(s, XlsxExtension, j) {
      assert FirstOccurrence(s, XlsxExtension, |stem|);
      assert s[..|stem|] == stem;
    }
    assert !OccursAt("a.xlsx.xlsx", XlsxExtension, 0) by {
      assert "a.xlsx.xlsx"[0..5][0] == 'a';
    }
    assert FirstOccurrence("a.xlsx.xlsx", XlsxExtension, 1);
  }

  /** The record `addCustomTemplateFromFile` builds once the read succeeded. */
  function IngestedRecord(fileName: string, dataUrl: string, timestamp: nat): (t: Template)
    ensures !t.isBuiltIn && t.fileUrl.None? && t.previewUrl.None?
    ensures t.fileData == Some(dataUrl)
    ensures t.id == CustomId(timestamp) && !IsBuiltInId(t.id)
    ensures t.name == DisplayName(fileName)
  {
    CustomIdProperties(timestamp, timestamp);
    Template(CustomId(timestamp), DisplayName(fileName), false, None, None, Some(dataUrl))
  }

  /** What the browser's file read delivered: the data URL, or an error. */
  datatype ReadOutcome = Loaded(dataUrl: string) | ReadFailed

  datatype IngestError = FailedToReadFile

  // ---------------------------------------------------------------------------
  // The manager over the two store keys
  // ---------------------------------------------------------------------------

  /** The manager with the two keys of the store it reads and writes:
      `custom_templates` as `customs` and `active_template_id` as `activeRaw`. */
  class TemplateStore {
    var customs: StoredList
    var activeRaw: Option<string>

    constructor (customs: StoredList, activeRaw: Option<string>)
      ensures this.customs == customs && this.activeRaw == activeRaw
    {
      this.customs := customs;
      this.activeRaw := activeRaw;
    }

    /** `getCustomTemplates`: the stored list, or empty when there is none to read. */
    function GetCustomTemplates(): (r: seq<Template>)
      reads this
      ensures customs.Stored? ==> r == customs.templates
      ensures !customs.Stored? ==> r == []
    {
      CustomsOf(customs)
    }

    /** `getAllTemplates`: the four built-ins, then the custom list in stored order. */
    function GetAllTemplates(): (r: seq<Template>)
      reads this
      ensures |r| == 4 + |GetCustomTemplates()|
      ensures r[..4] == BuiltIns && r[4..] == GetCustomTemplates()
    {
      BuiltInsShape();
      Catalog(GetCustomTemplates())
    }

    /** `getActiveTemplateId`: the stored pointer when it is a non-empty
        string, `template-1` otherwise. */
    function GetActiveTemplateId(): (id: string)
      reads this
      ensures activeRaw.Some? && activeRaw.value != "" ==> id == activeRaw.value
      ensures activeRaw.None? || activeRaw.value == "" ==> id == DefaultId
    {
      ActiveIdOf(activeRaw)
    }

    /** `getActiveTemplate`: the first listed template with the active id,
        or nothing when no template has it. */
    function GetActiveTemplate(): (r: Option<Template>)
      reads this
      ensures r.None? <==> !HasId(GetAllTemplates(), GetActiveTemplateId())
      ensures r.Some? ==>
        exists i :: FirstWithId(GetAllTemplates(), GetActiveTemplateId(), i) && r.value == GetAllTemplates()[i]
    {
      Find(GetAllTemplates(), GetActiveTemplateId())
    }

    /** `saveCustomTemplate` (lines 64-75): replace the first entry with the
        template's id in place, or append; then write the whole list. */
    method SaveCustomTemplate(template: Template)
      modifies this
      ensures customs == Stored(Upserted(old(GetCustomTemplates()), template))
      ensures activeRaw == old(activeRaw)
      ensures GetActiveTemplateId() == old(GetActiveTemplateId())
    {
      var templates := GetCustomTemplates();
      var existingIndex := FindIndex(templates, template.id);
      if existingIndex.Some? {
        templates := templates[existingIndex.value := template];
      } else {
        templates := templates + [template];
      }
      customs := Stored(templates);
    }

    /** `deleteCustomTemplate` (lines 77-85): drop every entry with the id;
        when the effective active id is that id, point at `template-1`. */
    method DeleteCustomTemplate(id: string)
      modifies this
      ensures customs == Stored(Without(old(GetCustomTemplates()), id))
      ensures old(GetActiveTemplateId()) == id ==> activeRaw == Some(DefaultId)
      ensures old(GetActiveTemplateId()) != id ==> activeRaw == old(activeRaw)
      ensures old(GetActiveTemplateId()) == id ==> GetActiveTemplateId() == DefaultId
      ensures GetActiveTemplateId() != id || IsBuiltInId(id)
    {
      var templates := GetCustomTemplates();
      var filtered := Without(templates, id);
      customs := Stored(filtered);
      if GetActiveTemplateId() == id {
        SetActiveTemplate(DefaultId);
      }
      BuiltInsShape();
      assert IsBuiltInId(DefaultId) by {
        assert BuiltIns[0].id == DefaultId;
      }
    }

    /** `setActiveTemplate` (lines 91-93): store the id as given, unchecked. */
    method SetActiveTemplate(id: string)
      modifies this
      ensures activeRaw == Some(id)
      ensures customs == old(customs)
      ensures id != "" ==> GetActiveTemplateId() == id
      ensures id == "" ==> GetActiveTemplateId() == DefaultId
    {
      activeRaw := Some(id);
    }

    /** `addCustomTemplateFromFile` once the read has finished (lines
        100-124): on a successful read build the record, upsert it and
        return it; on a failed read fail and leave the store alone. */
    method AddCustomTemplateFromFile(fileName: string, read: ReadOutcome, timestamp: nat)
      returns (r: Result<Template, IngestError>)
      modifies this
      ensures read.ReadFailed? ==> r == Err(FailedToReadFile) && customs == old(customs)
      ensures read.Loaded? ==> r == Ok(IngestedRecord(fileName, read.dataUrl, timestamp))
      ensures read.Loaded? ==> customs == Stored(Upserted(old(GetCustomTemplates()), r.value))
      ensures activeRaw == old(activeRaw)
    {
      match read
      case ReadFailed =>
        r := Err(FailedToReadFile);
      case Loaded(base64Data) =>
        var template := IngestedRecord(fileName, base64Data, timestamp);
        SaveCustomTemplate(template);
        r := Ok(template);
    }
  }

  // ---------------------------------------------------------------------------
  // Properties across operations
  // ---------------------------------------------------------------------------

  /** Upload, then select: the active template is then the record just
      ingested, whatever list was stored before. */
  lemma IngestThenActivate(customs: seq<Template>, fileName: string, dataUrl: string, timestamp: nat)
    ensures var t := IngestedRecord(fileName, dataUrl, timestamp);
      Find(Catalog(Upserted(customs, t)), ActiveIdOf(Some(t.id))) == Some(t)
  {
    var t := IngestedRecord(fileName, dataUrl, timestamp);
    FindAppend(BuiltIns, Upserted(customs, t), t.id);
    assert !HasId(BuiltIns, t.id);
    FindUpserted(customs, t);
  }

  /** Delete, then search: a deleted custom id no longer resolves in the
      catalogue (built-in ids are never deleted, since they are not in the
      custom list). */
  lemma DeleteThenFind(customs: seq<Template>, id: string)
    requires !IsBuiltInId(id)
    ensures Find(Catalog(Without(customs, id)), id) == None
  {
  }

  /** Re-uploading a record with an id already listed keeps the length and
      puts the record at the old position. */
  lemma ReplaceInPlace(customs: seq<Template>, t: Template, i: nat)
    requires FirstWithId(customs, t.id, i)
    ensures |Upserted(customs, t)| == |customs|
    ensures Upserted(customs, t)[i] == t
    ensures forall j :: 0 <= j < |customs| && j != i ==> Upserted(customs, t)[j] == customs[j]
  {
  }
}
