/**
 * The result side of an Athena query: `AthenaResult` fetches the pages of a
 * finished query, decodes them to rows, caches the rows and their delimited
 * text, and hands that text to a storage upload.
 *
 * The remote paginator is the constant `pages`: the pages it yields for this
 * query id, the same on every call.
 */
module Athena {
  import opened Wrappers
  import opened Decoding
  import opened Text

  /** The exception `list.pop(0)` raises on an empty list. */
  datatype Error = PopFromEmptyList

  /** The object upload `to_s3` performs: bucket, key and body. */
  datatype Upload = Upload(bucket: string, key: string, body: string)

  /** `p.endswith('/')`: the path is some prefix followed by a slash. */
  predicate EndsWithSlash(p: string)
    ensures EndsWithSlash(p) <==> |p| > 0 && p[..|p| - 1] + "/" == p
  {
    |p| > 0 && p[|p| - 1] == '/'
  }

  class AthenaResult {
    const database: string
    const queryId: string
    /** Where the service stores the query's CSV output. */
    const s3Path: string
    /** The pages the paginator yields for `queryId`. */
    const pages: seq<Page>
    /** `self.results`: the cached rows, None until computed. */
    var results: Option<Table>
    /** `self.results_str`: the cached delimited text, None until computed. */
    var resultsStr: Option<string>
    /** How many times the pages have been fetched from the service. */
    ghost var fetchCount: nat
    /** The delimiter the cached text was built with. */
    ghost var strDelim: string

    /**
     * The caches agree with the service: cached rows are what `result()`
     * computes, and cached text is those rows joined with the delimiter used.
     */
    ghost predicate Valid()
      reads this
    {
      (results.Some? ==> results.value == FetchedRows(pages)) &&
      (resultsStr.Some? ==> results.Some? && resultsStr.value == DelimitedText(results.value, strDelim))
    }

    constructor (database: string, queryId: string, s3Path: string, pages: seq<Page>)
      ensures Valid()
      ensures this.database == database && this.queryId == queryId && this.pages == pages
      ensures this.s3Path == ResultCsv(s3Path, queryId)
      ensures results == None && resultsStr == None && fetchCount == 0
    {
      this.database := database;
      this.queryId := queryId;
      this.s3Path := ResultCsv(s3Path, queryId);
      this.pages := pages;
      results := None;
      resultsStr := None;
      fetchCount := 0;
      strDelim := "";
    }

    /**
     * `result(header)`: fetches every page and returns all rows but the first,
     * whatever `header` says (it is never read). With no page it returns []
     * and leaves the cache alone; otherwise the cache ends up holding the
     * returned rows, first row dropped as well, because the cached list is the
     * one that loses its head.
     */
    method Result(header: bool := true) returns (rows: Table)
      requires Valid()
      modifies this`results, this`fetchCount
      ensures Valid()
      ensures rows == FetchedRows(pages)
      ensures results == if |pages| == 0 then old(results) else Some(rows)
      ensures fetchCount == old(fetchCount) + 1
    {
      fetchCount := fetchCount + 1;
      var collected := [];
      for n := 0 to |pages|
        invariant collected == pages[..n]
      {
        collected := collected + [pages[n]];
      }
      assert collected == pages;
      if |collected| == 0 {
        return [];
      }
      var data := Flatten(collected);
      var finalData := DecodeData(data);
      results := Some(finalData);
      if |finalData| > 0 {
        // the cached list and the returned list are one list: both lose the first row
        finalData := finalData[1..];
        results := Some(finalData);
      }
      rows := finalData;
    }

    /**
     * `to_string(delim)`: fetches only when no rows are cached, then caches
     * and returns the rows as delimited text.
     */
    method ToString(delim: string := "\t") returns (s: string)
      requires Valid()
      modifies this`results, this`resultsStr, this`fetchCount, this`strDelim
      ensures Valid()
      ensures old(results).Some? ==> results == old(results) && fetchCount == old(fetchCount)
      ensures old(results).None? ==> fetchCount == old(fetchCount) + 1
      ensures results == Some(FetchedRows(pages))
      ensures s == DelimitedText(FetchedRows(pages), delim)
      ensures resultsStr == Some(s)
    {
      if results.None? {
        var r := Result();
        results := Some(r);
      }
      s := DelimitedText(results.value, delim);
      resultsStr := Some(s);
      strDelim := delim;
    }

    /**
     * `to_s3(bucket, file_name)`: builds the tab-delimited text only when no
     * text is cached, and uploads the cached text (whatever delimiter it was
     * built with) under `bucket`/`fileName`.
     */
    method ToS3(bucket: string, fileName: string) returns (upload: Upload)
      requires Valid()
      modifies this`results, this`resultsStr, this`fetchCount, this`strDelim
      ensures Valid()
      ensures old(resultsStr).Some? ==>
                resultsStr == old(resultsStr) && results == old(results) && fetchCount == old(fetchCount)
      ensures old(resultsStr).None? ==> resultsStr == Some(DelimitedText(FetchedRows(pages), "\t"))
      ensures old(resultsStr).None? ==> fetchCount == old(fetchCount) + (if old(results).None? then 1 else 0)
      ensures resultsStr.Some? && upload == Upload(bucket, fileName, resultsStr.value)
      ensures upload.body == DelimitedText(FetchedRows(pages), strDelim)
    {
      if resultsStr.None? {
        var s := ToString();
        resultsStr := Some(s);
      }
      upload := Upload(bucket, fileName, resultsStr.value);
    }

    /**
     * `_format_results(query_results, header)`: decodes one page, leaving out
     * cells without a value, and drops the first row only when `header` is
     * false; dropping from an empty page raises.
     */
    static method FormatResults(queryResults: Page, header: bool) returns (r: Result<Table, Error>)
      ensures r.Err? <==> !header && |queryResults| == 0
      ensures r.Ok? ==> |r.value| == if header then |queryResults| else |queryResults| - 1
      ensures r.Ok? ==> forall i :: 0 <= i < |r.value| ==>
                r.value[i] == PresentValues(queryResults[if header then i else i + 1])
      ensures r.Ok? ==> forall i :: 0 <= i < |r.value| ==>
                |r.value[i]| <= |queryResults[if header then i else i + 1]|
    {
      var matrix: Table := [];
      for i := 0 to |queryResults|
        invariant |matrix| == i
        invariant forall m :: 0 <= m < i ==> matrix[m] == PresentValues(queryResults[m])
      {
        var row := queryResults[i];
        var datum := [];
        for k := 0 to |row|
          invariant datum == PresentValues(row[..k])
        {
          assert row[..k + 1][..k] == row[..k];
          if row[k].varCharValue.None? {
            continue;
          }
          datum := datum + [row[k].varCharValue.value];
        }
        assert row[..|row|] == row;
        matrix := matrix + [datum];
      }
      if !header {
        if |matrix| == 0 {
          return Err(PopFromEmptyList);
        }
        matrix := matrix[1..];
      }
      r := Ok(matrix);
    }

    /**
     * `_result_csv(s3_path, query_id)`: the directory, with a slash added when
     * it lacks one, then `<queryId>.csv`.
     */
    static function ResultCsv(s3Path: string, queryId: string): (r: string)
      ensures |r| == |s3Path| + (if EndsWithSlash(s3Path) then 0 else 1) + |queryId| + 4
      ensures r[..|s3Path|] == s3Path
      ensures r[|r| - |queryId| - 4..] == queryId + ".csv"
      ensures r[|r| - |queryId| - 5] == '/'
    {
      var dir := if EndsWithSlash(s3Path) then s3Path else s3Path + "/";
      dir + queryId + ".csv"
    }
  }

  /** A path with its slash already added names the same file. */
  lemma ResultCsvNormalised(s3Path: string, queryId: string)
    ensures AthenaResult.ResultCsv(s3Path + "/", queryId) == AthenaResult.ResultCsv(s3Path, queryId)
        <==> !EndsWithSlash(s3Path)
  {
    var with := AthenaResult.ResultCsv(s3Path + "/", queryId);
    var without := AthenaResult.ResultCsv(s3Path, queryId);
    assert EndsWithSlash(s3Path + "/");
    if EndsWithSlash(s3Path) {
      assert |with| != |without|;
    }
  }

  /**
   * Two pages, the first holding a header row and one data row and the second
   * one data row: the header row is dropped and the rest is tab-joined.
   */
  lemma TwoPageExample()
    ensures var pages := [[[Cell(Some("a")), Cell(Some("b"))], [Cell(Some("1")), Cell(Some("2"))]],
                          [[Cell(Some("3")), Cell(Some("4"))]]];
            FetchedRows(pages) == [["1", "2"], ["3", "4"]] &&
            DelimitedText(FetchedRows(pages), "\t") == "1\t2\n3\t4\n"
  {
    var p1: Page := [[Cell(Some("a")), Cell(Some("b"))], [Cell(Some("1")), Cell(Some("2"))]];
    var p2: Page := [[Cell(Some("3")), Cell(Some("4"))]];
    var pages := [p1, p2];
    assert Flatten(pages) == p1 + p2 by {
      assert pages[1..] == [p2];
      assert Flatten([p2]) == p2 + Flatten([]);
    }
    var decoded := DecodeRows(Flatten(pages));
    assert decoded[1] == DecodeRow(p1[1]) == ["1", "2"];
    assert decoded[2] == DecodeRow(p2[0]) == ["3", "4"];
    assert FetchedRows(pages) == decoded[1..] == [["1", "2"], ["3", "4"]];
    assert Join("\t", ["1", "2"]) == "1\t2" by { assert ["1", "2"][1..] == ["2"]; }
    assert Join("\t", ["3", "4"]) == "3\t4" by { assert ["3", "4"][1..] == ["4"]; }
    assert Join("\n", ["1\t2", "3\t4"]) == "1\t2\n3\t4" by { assert ["1\t2", "3\t4"][1..] == ["3\t4"]; }
  }
}
