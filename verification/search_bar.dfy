/** The header search bar (frontend/components/SearchBar.tsx): it keeps its
    input in sync with the URL's `q` and, on submit, rewrites the current
    query parameters and navigates to the catalogue. */
module SearchBar {
  import opened Wrappers
  import opened Text
  import opened SearchParams

  /** A client-side navigation: the target path and its query parameters. */
  datatype Navigation = Navigation(path: string, params: seq<Param>)

  /** The input text taken from the URL: `sp.get("q") || ""`. Used both for the
      initial state and by the effect that re-runs whenever the URL changes. */
  function SyncInput(sp: seq<Param>): (r: string)
    ensures Count(sp, "q") == 0 ==> r == ""
    ensures Count(sp, "q") > 0 ==> Get(sp, "q") == Some(r)
  {
    Get(sp, "q").GetOr("")
  }

  /** The parameters after `submit`: `q` set to the trimmed input when that is
      non-empty and deleted otherwise, then `page` deleted. */
  function SubmitParams(sp: seq<Param>, q: string): seq<Param> {
    var t := Trim(JavaScript, q);
    var p := if t != "" then Set(sp, "q", t) else Delete(sp, "q");
    Delete(p, "page")
  }

  /** `submit`: navigate to the catalogue with the rewritten parameters. The
      result never carries `page`; it carries exactly one `q`, equal to the
      trimmed input, when that is non-empty, and none otherwise; and the pairs
      of every other name are those of the current URL, in the same order. */
  function Submit(sp: seq<Param>, q: string): (r: Navigation)
    ensures r.path == "/products"
    ensures Count(r.params, "page") == 0
    ensures Trim(JavaScript, q) != "" ==> Count(r.params, "q") == 1 && Get(r.params, "q") == Some(Trim(JavaScript, q))
    ensures Trim(JavaScript, q) == "" ==> Count(r.params, "q") == 0
    ensures Delete(Delete(r.params, "q"), "page") == Delete(Delete(sp, "q"), "page")
  {
    SubmitParamsFacts(sp, q);
    Navigation("/products", SubmitParams(sp, q))
  }

  lemma SubmitParamsFacts(sp: seq<Param>, q: string)
    ensures var r := SubmitParams(sp, q);
      && Count(r, "page") == 0
      && (Trim(JavaScript, q) != "" ==> Count(r, "q") == 1 && Get(r, "q") == Some(Trim(JavaScript, q)))
      && (Trim(JavaScript, q) == "" ==> Count(r, "q") == 0)
      && Delete(Delete(r, "q"), "page") == Delete(Delete(sp, "q"), "page")
  {
    var t := Trim(JavaScript, q);
    var p := if t != "" then Set(sp, "q", t) else Delete(sp, "q");
    DeleteKeepsOthers(p, "page", "q");
    if t == "" {
      DeleteTwice(sp, "q");
    }
    DeleteCommutes(p, "page", "q");
    DeleteTwice(Delete(p, "q"), "page");
  }

  /** Every name other than `q` and `page` keeps its pairs: their number and
      the value `get` reads. */
  lemma SubmitKeepsOthers(sp: seq<Param>, q: string, n: string)
    requires n != "q" && n != "page"
    ensures Count(Submit(sp, q).params, n) == Count(sp, n)
    ensures Get(Submit(sp, q).params, n) == Get(sp, n)
  {
    var r := Submit(sp, q).params;
    DeleteKeepsOthers(r, "q", n);
    DeleteKeepsOthers(Delete(r, "q"), "page", n);
    DeleteKeepsOthers(sp, "q", n);
    DeleteKeepsOthers(Delete(sp, "q"), "page", n);
  }

  /** After a submit, the input re-synced from the new URL is the trimmed
      text that was submitted. */
  lemma SubmitThenSync(sp: seq<Param>, q: string)
    ensures SyncInput(Submit(sp, q).params) == Trim(JavaScript, q)
  {
  }

  /** Submitting again what the URL already shows changes nothing further. */
  lemma SubmitIdempotent(sp: seq<Param>, q: string)
    ensures Submit(Submit(sp, q).params, SyncInput(Submit(sp, q).params)) == Submit(sp, q)
  {
    var r := Submit(sp, q).params;
    var t := Trim(JavaScript, q);
    TrimIdempotent(JavaScript, q);
    if t != "" {
      SetPresent(r, "q", t);
    } else {
      DeleteAbsent(r, "q");
    }
    DeleteAbsent(r, "page");
  }
}
