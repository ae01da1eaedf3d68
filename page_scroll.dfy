/** The loop that scrolls every page element into view, in document order,
    and reports progress after every tenth element.

    The browser calls (scrolling an element into view, the pause after it)
    are not modelled; the loop records which element it visited instead.
 */
module PageScroll {

  /** One progress line: how many elements are done out of how many. */
  datatype Progress = Progress(scrolled: nat, total: nat)

  /** A progress line follows element `i` (counted from 0) exactly when the
      running count `i + 1` is a multiple of ten. */
  predicate ReportsAfter(i: nat) { (i + 1) % 10 == 0 }

  /** Visits every page in order and emits the progress lines. */
  method ScrollPages<T>(pages: seq<T>) returns (visited: seq<T>, reports: seq<Progress>)
    ensures visited == pages
    ensures |reports| == |pages| / 10
    ensures forall k :: 0 <= k < |reports| ==> reports[k] == Progress(10 * (k + 1), |pages|)
  {
    var total := |pages|;
    visited, reports := [], [];
    var i := 0;
    while i < total
      invariant 0 <= i <= total
      invariant visited == pages[..i]
      invariant |reports| == i / 10
      invariant forall k :: 0 <= k < |reports| ==> reports[k] == Progress(10 * (k + 1), total)
    {
      visited := visited + [pages[i]];
      if ReportsAfter(i) {
        reports := reports + [Progress(i + 1, total)];
      }
      i := i + 1;
    }
  }

  /** Reports shaped as `ScrollPages` returns them have a line for the
      count after element `i` exactly when the rule fires there. */
  lemma ReportedExactlyWhenRuleFires(total: nat, reports: seq<Progress>, i: nat)
    requires |reports| == total / 10
    requires forall k :: 0 <= k < |reports| ==> reports[k] == Progress(10 * (k + 1), total)
    requires i < total
    ensures ReportsAfter(i) <==> Progress(i + 1, total) in reports
  {
    if ReportsAfter(i) {
      var k := (i + 1) / 10 - 1;
      assert 10 * (k + 1) == i + 1;
      assert reports[k] == Progress(i + 1, total);
    }
    if Progress(i + 1, total) in reports {
      var k :| 0 <= k < |reports| && reports[k] == Progress(i + 1, total);
      assert i + 1 == 10 * (k + 1);
    }
  }
}
