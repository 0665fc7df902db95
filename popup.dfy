/**
 * The popup's state logic, with the browser stripped away: the merge of an
 * extraction response into the four form inputs, the saved-lead list with
 * its save, delete and clear operations, and the CSV export of that list.
 *
 * `chrome.storage.local` becomes the `leads` field of a `LeadStore`; the
 * clock that stamps a lead is a caller-supplied `id` and `date`.
 */
module Popup {
  import opened Wrappers
  import opened JsStrings
  import opened ContentScript

  // ---------------------------------------------------------------
  // Prefill
  // ---------------------------------------------------------------

  /** The values of the four inputs of the "add" view. */
  datatype Form = Form(name: string, role: string, company: string, url: string)

  /** The content script's reply as the popup sees it: any field may be missing. */
  datatype Response = Response(name: Option<string>, role: Option<string>, company: Option<string>, url: Option<string>)

  /** The reply the content script sends for an extraction result: every field present. */
  function AsResponse(e: ExtractionResult): Response {
    Response(Some(e.name), Some(e.role), Some(e.company), Some(e.url))
  }

  /**
   * The inputs after the popup opens: `activeTabUrl` is the URL of the active
   * tab, `None` when there is no active tab; `response` is the reply of the
   * content script, `None` when none arrived.
   */
  function Prefill(form: Form, activeTabUrl: Option<string>, response: Option<Response>): (r: Form)
    // no active tab: nothing is asked and nothing changes
    ensures activeTabUrl.None? ==> r == form
    // a reply overwrites every input, a missing field with ""
    ensures activeTabUrl.Some? && response.Some? ==>
              && r.name == response.value.name.GetOr("")
              && r.role == response.value.role.GetOr("")
              && r.company == response.value.company.GetOr("")
              && r.url == response.value.url.GetOr("")
    // no reply: only the URL input changes, to the tab's URL
    ensures activeTabUrl.Some? && response.None? ==>
              r == form.(url := activeTabUrl.value)
  {
    match activeTabUrl
    case None => form
    case Some(tabUrl) =>
      match response
      case Some(resp) =>
        Form(resp.name.GetOr(""), resp.role.GetOr(""), resp.company.GetOr(""), resp.url.GetOr(""))
      case None => form.(url := tabUrl)
  }

  /** A reply from the content script fills the inputs with exactly what the extractor found on the page, whatever they held. */
  lemma PrefillFromPage(form: Form, tabUrl: string, p: Page)
    ensures var e := ScrapePage(p);
            Prefill(form, Some(tabUrl), Some(AsResponse(e))) == Form(e.name, e.role, e.company, e.url)
    ensures Prefill(form, Some(tabUrl), Some(AsResponse(ScrapePage(p)))).url == p.url
  {
  }

  /** Prefilling twice with the same outcome is prefilling once. */
  lemma PrefillIdempotent(form: Form, activeTabUrl: Option<string>, response: Option<Response>)
    ensures var once := Prefill(form, activeTabUrl, response);
            Prefill(once, activeTabUrl, response) == once
  {
  }

  // ---------------------------------------------------------------
  // Leads
  // ---------------------------------------------------------------

  datatype Lead = Lead(id: string, name: string, role: string, company: string, url: string, date: string)

  const EmptyNameMessage := "Please enter a name."
  const SavedMessage := "Saved!"

  /** `!lead.name`: only the empty string is refused, a name of spaces is accepted. */
  predicate NameAccepted(name: string) {
    name != ""
  }

  /** The lead a save records from the inputs, stamped with `id` and `date`. */
  function LeadFrom(form: Form, id: string, date: string): Lead {
    Lead(id, form.name, form.role, form.company, form.url, date)
  }

  /** `leads.filter(l => l.id !== id)`. */
  function WithoutId(leads: seq<Lead>, id: string): (r: seq<Lead>)
    ensures |r| <= |leads|
    ensures forall l :: l in r <==> l in leads && l.id != id
  {
    if leads == [] then []
    else
      var rest := WithoutId(leads[1..], id);
      assert forall l :: l in leads <==> l == leads[0] || l in leads[1..];
      if leads[0].id == id then rest else [leads[0]] + rest
  }

  /** Every lead is kept as often as it occurs, unless it carries the id. */
  lemma {:induction false} WithoutIdCounts(leads: seq<Lead>, id: string, l: Lead)
    ensures multiset(WithoutId(leads, id))[l] == if l.id == id then 0 else multiset(leads)[l]
  {
    if leads != [] {
      WithoutIdCounts(leads[1..], id, l);
      assert leads == [leads[0]] + leads[1..];
    }
  }

  /** Deleting an id no lead carries changes nothing. */
  lemma {:induction false} WithoutAbsentId(leads: seq<Lead>, id: string)
    requires forall l :: l in leads ==> l.id != id
    ensures WithoutId(leads, id) == leads
  {
    if leads != [] {
      assert forall l :: l in leads[1..] ==> l in leads;
      WithoutAbsentId(leads[1..], id);
      assert leads == [leads[0]] + leads[1..];
    }
  }

  /** The filter keeps order: on a concatenation it filters each part in place. */
  lemma {:induction false} WithoutIdAppend(a: seq<Lead>, b: seq<Lead>, id: string)
    ensures WithoutId(a + b, id) == WithoutId(a, id) + WithoutId(b, id)
  {
    if a == [] {
      assert a + b == b;
    } else {
      assert (a + b)[1..] == a[1..] + b;
      WithoutIdAppend(a[1..], b, id);
    }
  }

  /** Deleting by two ids, in either order, leaves the same list. */
  lemma {:induction false} WithoutIdCommutes(leads: seq<Lead>, a: string, b: string)
    ensures WithoutId(WithoutId(leads, a), b) == WithoutId(WithoutId(leads, b), a)
  {
    if leads != [] {
      WithoutIdCommutes(leads[1..], a, b);
      var h := leads[0];
      if h.id != a && h.id != b {
        assert ([h] + WithoutId(leads[1..], a))[1..] == WithoutId(leads[1..], a);
        assert ([h] + WithoutId(leads[1..], b))[1..] == WithoutId(leads[1..], b);
      } else if h.id != a {
        assert ([h] + WithoutId(leads[1..], a))[1..] == WithoutId(leads[1..], a);
      } else if h.id != b {
        assert ([h] + WithoutId(leads[1..], b))[1..] == WithoutId(leads[1..], b);
      }
    }
  }

  /** Deleting the id of a lead just saved, whose id was new, gives back the list before the save. */
  lemma DeleteUndoesSave(leads: seq<Lead>, lead: Lead)
    requires forall l :: l in leads ==> l.id != lead.id
    ensures WithoutId(leads + [lead], lead.id) == leads
  {
    WithoutIdAppend(leads, [lead], lead.id);
    WithoutAbsentId(leads, lead.id);
    assert WithoutId([lead], lead.id) == [];
  }

  /** Every lead the store was given saved with a name. */
  ghost predicate AllNamed(leads: seq<Lead>) {
    forall l :: l in leads ==> NameAccepted(l.name)
  }

  /** `chrome.storage.local`'s `leads` entry, in the order the leads were saved. */
  class LeadStore {
    var leads: seq<Lead>

    /** Only saves add leads, and a save refuses an empty name. */
    ghost predicate Valid()
      reads this
    {
      AllNamed(leads)
    }

    /** `result.leads || []` before anything was saved. */
    constructor ()
      ensures leads == [] && Valid()
    {
      leads := [];
    }

    /** The save button: refuses an empty name, otherwise appends one lead at the end. */
    method Save(form: Form, id: string, date: string) returns (status: string)
      requires Valid()
      modifies this
      ensures Valid()
      ensures !NameAccepted(form.name) ==> leads == old(leads) && status == EmptyNameMessage
      ensures NameAccepted(form.name) ==>
                leads == old(leads) + [LeadFrom(form, id, date)] && status == SavedMessage
    {
      var lead := LeadFrom(form, id, date);
      if !NameAccepted(lead.name) {
        return EmptyNameMessage;
      }
      leads := leads + [lead];
      status := SavedMessage;
    }

    /** `deleteLead(id)`: every lead with this id goes, the others stay in order. */
    method Delete(id: string)
      requires Valid()
      modifies this
      ensures Valid()
      ensures leads == WithoutId(old(leads), id)
    {
      leads := WithoutId(leads, id);
    }

    /** The clear button, once confirmed. */
    method Clear()
      modifies this
      ensures Valid()
      ensures leads == []
    {
      leads := [];
    }

    /**
     * The export button: no file for an empty store, otherwise the header
     * line and one line per lead in store order, joined by newlines.
     */
    method ExportCsv() returns (csv: Option<string>)
      ensures |leads| == 0 <==> csv.None?
      ensures |leads| > 0 ==> csv == Some(CsvText(leads))
    {
      if |leads| == 0 {
        return None;
      }
      HeaderJoin();
      var rows := [Join(Headers, ",")];
      var i := 0;
      while i < |leads|
        invariant 0 <= i <= |leads|
        invariant rows == [Header] + RowLines(leads[..i])
      {
        var lead := leads[i];
        var row := [Quote(lead.name), Quote(lead.role), Quote(lead.company), Quote(lead.url), Quote(lead.date)];
        var line := Join(row, ",");
        RowJoin(lead);
        ExportStep(rows, leads, i);
        rows := rows + [line];
        i := i + 1;
      }
      assert leads[..i] == leads;
      JoinRowLines(Header, leads);
      csv := Some(Join(rows, "\n"));
    }
  }

  // ---------------------------------------------------------------
  // CSV
  // ---------------------------------------------------------------

  const Headers := ["Name", "Role", "Company", "URL", "Date"]
  const Header := "Name,Role,Company,URL,Date"

  /** A field between double quotes, with nothing escaped. */
  function Quote(s: string): (r: string)
    ensures |r| == |s| + 2 && r[0] == '"' && r[|r| - 1] == '"' && r[1..|r| - 1] == s
  {
    "\"" + s + "\""
  }

  /** The line of one lead: its five fields quoted, separated by commas. */
  function Row(l: Lead): string {
    Quote(l.name) + "," + Quote(l.role) + "," + Quote(l.company) + "," + Quote(l.url) + "," + Quote(l.date)
  }

  /** The lines of the leads, one per lead and in order. */
  function RowLines(leads: seq<Lead>): (r: seq<string>)
    ensures |r| == |leads|
    ensures forall k :: 0 <= k < |leads| ==> r[k] == Row(leads[k])
  {
    if leads == [] then [] else [Row(leads[0])] + RowLines(leads[1..])
  }

  /** Each lead's line, every one preceded by a newline. */
  function Rows(leads: seq<Lead>): string {
    if leads == [] then "" else "\n" + Row(leads[0]) + Rows(leads[1..])
  }

  /** The exported file: the header line, then for each lead a newline and its line; no trailing newline. */
  function CsvText(leads: seq<Lead>): string {
    Header + Rows(leads)
  }

  lemma HeaderJoin()
    ensures Join(Headers, ",") == Header
  {
    var h := Headers;
    assert h[1..][1..][1..][1..] == ["Date"];
  }

  /** `row.join(',')` on the quoted fields is the lead's line. */
  lemma RowJoin(l: Lead)
    ensures Join([Quote(l.name), Quote(l.role), Quote(l.company), Quote(l.url), Quote(l.date)], ",") == Row(l)
  {
    var a, b, c, d, e := Quote(l.name), Quote(l.role), Quote(l.company), Quote(l.url), Quote(l.date);
    assert [a, b, c, d, e] == [a] + [b, c, d, e] && [b, c, d, e] == [b] + [c, d, e];
    assert [c, d, e] == [c] + [d, e] && [d, e] == [d] + [e];
    JoinCons(d, [e], ",");
    JoinCons(c, [d, e], ",");
    JoinCons(b, [c, d, e], ",");
    JoinCons(a, [b, c, d, e], ",");
  }

  /** One turn of the export loop appends the next lead's line. */
  lemma ExportStep(rows: seq<string>, leads: seq<Lead>, i: nat)
    requires i < |leads| && rows == [Header] + RowLines(leads[..i])
    ensures rows + [Row(leads[i])] == [Header] + RowLines(leads[..i + 1])
  {
    var done := leads[..i];
    assert leads[..i + 1] == done + [leads[i]];
    RowLinesSnoc(done, leads[i]);
    AppendAssoc([Header], RowLines(done), [Row(leads[i])]);
  }

  lemma AppendAssoc<T>(a: seq<T>, b: seq<T>, c: seq<T>)
    ensures (a + b) + c == a + (b + c)
  {
  }

  lemma {:induction false} RowLinesSnoc(leads: seq<Lead>, l: Lead)
    ensures RowLines(leads + [l]) == RowLines(leads) + [Row(l)]
  {
  }

  /** `csvRows.join('\n')` after the loop is the file text. */
  lemma {:induction false} JoinRowLines(h: string, leads: seq<Lead>)
    ensures Join([h] + RowLines(leads), "\n") == h + Rows(leads)
    decreases |leads|
  {
    if leads != [] {
      var rest := RowLines(leads[1..]);
      assert [h] + RowLines(leads) == [h] + ([Row(leads[0])] + rest);
      assert ([h] + ([Row(leads[0])] + rest))[1..] == [Row(leads[0])] + rest;
      JoinRowLines(Row(leads[0]), leads[1..]);
    }
  }

  /** None of the five exported fields of `l` holds `c`. */
  predicate FieldsAvoid(l: Lead, c: char) {
    c !in l.name && c !in l.role && c !in l.company && c !in l.url && c !in l.date
  }

  lemma RowAvoids(l: Lead, c: char)
    requires c != '"' && c != ',' && FieldsAvoid(l, c)
    ensures c !in Row(l)
  {
  }

  /** With no newline inside a field, the file has exactly one line per lead after the header, in store order. */
  lemma CsvLines(leads: seq<Lead>)
    requires forall l :: l in leads ==> FieldsAvoid(l, '\n')
    ensures Split(CsvText(leads), "\n") == [Header] + RowLines(leads)
    ensures |Split(CsvText(leads), "\n")| == |leads| + 1
  {
    var xs := [Header] + RowLines(leads);
    JoinRowLines(Header, leads);
    assert CsvText(leads) == Join(xs, "\n");
    HeaderAvoidsNewline();
    LinesAvoid(Header, leads, '\n');
    SplitJoin(xs, "\n");
  }

  lemma HeaderAvoidsNewline()
    ensures '\n' !in Header
  {
    assert forall k :: 0 <= k < |Header| ==> Header[k] != '\n';
  }

  lemma LinesAvoid(h: string, leads: seq<Lead>, c: char)
    requires c != '"' && c != ',' && c !in h
    requires forall l :: l in leads ==> FieldsAvoid(l, c)
    ensures forall k :: 0 <= k < |[h] + RowLines(leads)| ==> c !in ([h] + RowLines(leads))[k]
  {
    var xs := [h] + RowLines(leads);
    forall k | 0 <= k < |xs| ensures c !in xs[k] {
      if k > 0 {
        assert xs[k] == Row(leads[k - 1]) && leads[k - 1] in leads;
        RowAvoids(leads[k - 1], c);
      }
    }
  }

  /** With no comma inside a field, a lead's line splits back into its five quoted fields. */
  lemma RowFields(l: Lead)
    requires FieldsAvoid(l, ',')
    ensures Split(Row(l), ",") == [Quote(l.name), Quote(l.role), Quote(l.company), Quote(l.url), Quote(l.date)]
  {
    var xs := [Quote(l.name), Quote(l.role), Quote(l.company), Quote(l.url), Quote(l.date)];
    RowJoin(l);
    SplitJoin(xs, ",");
  }

  /** Lead lines close with a quote, so the file never ends in a newline. */
  lemma {:induction false} RowsEndInQuote(leads: seq<Lead>)
    requires leads != []
    ensures |Rows(leads)| > 0 && Rows(leads)[|Rows(leads)| - 1] == '"'
    decreases |leads|
  {
    if leads[1..] != [] {
      RowsEndInQuote(leads[1..]);
    } else {
      assert Rows(leads[1..]) == "";
    }
  }

  /** The file opens with the header line and, once there is a lead, ends with the closing quote of the last date. */
  lemma CsvShape(leads: seq<Lead>)
    ensures |CsvText(leads)| >= |Header| && CsvText(leads)[..|Header|] == Header
    ensures leads != [] ==> CsvText(leads)[|CsvText(leads)| - 1] == '"'
    ensures leads == [] ==> CsvText(leads) == Header
  {
    if leads != [] {
      RowsEndInQuote(leads);
    }
  }
}
