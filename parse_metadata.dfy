/**
 * utils/parse_metadata.py: the metadata CSV grouper.  Rows come from the
 * CSV reader as lists of fields; an empty row is skipped, every other row
 * must have exactly four fields (filename, tag, description, permalink) or
 * the unpacking raises.  The row at index 0 names the filter and is not
 * data; every later row is kept, and its filename is filed under its tag.
 * The JSON files written afterwards are one option list per tag,
 * filters.json, and one record per row under metadata/.
 */
module ParseMetadata {
  import opened Results
  import opened Strings
  import opened PixplotImages
  import opened FileStems

  /** One data row: filename, tag, description, permalink. */
  datatype Row = Row(filename: string, tag: string, description: string, permalink: string)

  /** The ValueError of unpacking a row that has neither zero nor four fields. */
  datatype MetadataError = WrongFieldCount(idx: nat)

  /**
   * The state after a prefix of the CSV: select_name, the keys of tags_dict
   * in insertion order, tags_dict itself, and rows.
   */
  datatype Parsed = Parsed(selectName: string, tagKeys: seq<string>, tags: map<string, set<string>>,
                           rows: seq<Row>)

  const DefaultSelectName: string := "Metadata"

  /** A row the unpacking rejects. */
  predicate BadRow(fields: seq<string>)
  {
    |fields| != 0 && |fields| != 4
  }

  function RowOf(fields: seq<string>): Row
    requires |fields| == 4
  {
    Row(fields[0], fields[1], fields[2], fields[3])
  }

  /** tags_dict[tag].add(filename); rows.append(row) */
  function AddRow(p: Parsed, row: Row): Parsed
  {
    var filed := if row.tag in p.tags then p.tags[row.tag] else {};
    Parsed(p.selectName,
           if row.tag in p.tags then p.tagKeys else p.tagKeys + [row.tag],
           p.tags[row.tag := filed + {row.filename}],
           p.rows + [row])
  }

  /** One pass of the row loop, for the row at index idx. */
  function Step(p: Parsed, idx: nat, fields: seq<string>): Result<Parsed, MetadataError>
  {
    if |fields| == 0 then Ok(p)
    else if |fields| != 4 then Err(WrongFieldCount(idx))
    else if idx == 0 then Ok(p.(selectName := fields[1]))
    else Ok(AddRow(p, RowOf(fields)))
  }

  /** The state after the first n rows, or the error of the first bad row among them. */
  function Parse(csv: seq<seq<string>>, n: nat): (r: Result<Parsed, MetadataError>)
    requires n <= |csv|
    ensures r.Err? ==> r.error.idx < n && BadRow(csv[r.error.idx])
    ensures r.Ok? ==> |r.value.rows| < n || n == 0
  {
    if n == 0 then Ok(Parsed(DefaultSelectName, [], map[], []))
    else
      match Parse(csv, n - 1)
      case Err(e) => Err(e)
      case Ok(p) => Step(p, n - 1, csv[n - 1])
  }

  /** parse_metadata's row loop over the rows the CSV reader yields. */
  method ParseRows(csv: seq<seq<string>>) returns (r: Result<Parsed, MetadataError>)
    ensures r == Parse(csv, |csv|)
  {
    var selectName := DefaultSelectName;
    var tagKeys: seq<string> := [];
    var tags: map<string, set<string>> := map[];
    var rows: seq<Row> := [];
    var idx := 0;
    while idx < |csv|
      invariant idx <= |csv|
      invariant Parse(csv, idx) == Ok(Parsed(selectName, tagKeys, tags, rows))
    {
      var i := csv[idx];
      if |i| == 0 {
        idx := idx + 1;
        continue;
      }
      if |i| != 4 {
        ParseStopsAtError(csv, idx + 1, |csv|, WrongFieldCount(idx));
        return Err(WrongFieldCount(idx));
      }
      var filename, tag, description, permalink := i[0], i[1], i[2], i[3];
      if idx == 0 {
        selectName := tag;
      } else {
        ghost var next := AddRow(Parsed(selectName, tagKeys, tags, rows), RowOf(i));
        if tag !in tags {
          tagKeys := tagKeys + [tag];
          tags := tags[tag := {}];
        }
        tags := tags[tag := tags[tag] + {filename}];
        rows := rows + [Row(filename, tag, description, permalink)];
        assert tags == next.tags;
      }
      idx := idx + 1;
    }
    r := Ok(Parsed(selectName, tagKeys, tags, rows));
  }

  /** Once a row has failed, the later rows are never read. */
  lemma {:induction false} ParseStopsAtError(csv: seq<seq<string>>, m: nat, n: nat, e: MetadataError)
    requires m <= n <= |csv| && Parse(csv, m) == Err(e)
    ensures Parse(csv, n) == Err(e)
    decreases n - m
  {
    if m < n {
      ParseStopsAtError(csv, m + 1, n, e);
    }
  }

  /** Parsing fails exactly when some row has neither zero nor four fields, and names the first such row. */
  lemma {:induction false} ParseFails(csv: seq<seq<string>>, n: nat)
    requires n <= |csv|
    ensures Parse(csv, n).Err? <==> exists i :: 0 <= i < n && BadRow(csv[i])
    ensures Parse(csv, n).Err? ==>
              var i := Parse(csv, n).error.idx;
              i < n && BadRow(csv[i]) && forall j :: 0 <= j < i ==> !BadRow(csv[j])
  {
    if n > 0 {
      ParseFails(csv, n - 1);
    }
  }

  /**
   * The filter name is the tag column of row 0 when that row has its four
   * fields; an empty row 0 leaves the default, since no later row has index 0.
   */
  lemma {:induction false} ParseSelectName(csv: seq<seq<string>>, n: nat)
    requires n <= |csv| && Parse(csv, n).Ok?
    ensures Parse(csv, n).value.selectName ==
            if n >= 1 && |csv[0]| == 4 then csv[0][1] else DefaultSelectName
  {
    if n > 0 {
      ParseSelectName(csv, n - 1);
    }
  }

  /** The data rows among the first n: every four-field row after row 0, in order. */
  function DataRows(csv: seq<seq<string>>, n: nat): seq<Row>
    requires n <= |csv|
  {
    if n == 0 then []
    else DataRows(csv, n - 1) + (if n - 1 >= 1 && |csv[n - 1]| == 4 then [RowOf(csv[n - 1])] else [])
  }

  /** rows keeps the data rows, in input order. */
  lemma {:induction false} ParseKeepsRows(csv: seq<seq<string>>, n: nat)
    requires n <= |csv| && Parse(csv, n).Ok?
    ensures Parse(csv, n).value.rows == DataRows(csv, n)
  {
    if n > 0 {
      ParseKeepsRows(csv, n - 1);
    }
  }

  /** A row is kept exactly when it is a four-field row after the header. */
  lemma {:induction false} DataRowsMembers(csv: seq<seq<string>>, n: nat, r: Row)
    requires n <= |csv|
    ensures r in DataRows(csv, n) <==> exists i :: 1 <= i < n && |csv[i]| == 4 && RowOf(csv[i]) == r
  {
    if n > 0 {
      DataRowsMembers(csv, n - 1, r);
    }
  }

  /** tags_dict files each filename under the tags of the rows that carry it, and nothing else. */
  ghost predicate TagsOfRows(tags: map<string, set<string>>, rows: seq<Row>)
  {
    (forall t :: t in tags <==> exists k :: 0 <= k < |rows| && rows[k].tag == t) &&
    (forall t, f :: t in tags ==>
       (f in tags[t] <==> exists k :: 0 <= k < |rows| && rows[k].tag == t && rows[k].filename == f))
  }

  /** The key list: each key of tags exactly once, and nothing else. */
  ghost predicate KeysOf(keys: seq<string>, tags: map<string, set<string>>)
  {
    (forall t :: t in tags <==> t in keys) &&
    (forall a, b :: 0 <= a < b < |keys| ==> keys[a] != keys[b])
  }

  ghost predicate Consistent(p: Parsed)
  {
    TagsOfRows(p.tags, p.rows) && KeysOf(p.tagKeys, p.tags)
  }

  /** Filing a row keeps tags_dict and its key order consistent with the rows. */
  lemma AddRowConsistent(p: Parsed, row: Row)
    requires Consistent(p)
    ensures Consistent(AddRow(p, row))
  {
    var filed := if row.tag in p.tags then p.tags[row.tag] else {};
    AddRowTags(p.tags, p.rows, row);
    AddRowKeys(p.tagKeys, p.tags, row.tag, filed + {row.filename});
  }

  /** Filing a row under its tag keeps tags_dict in step with the rows. */
  lemma AddRowTags(tags: map<string, set<string>>, rows: seq<Row>, row: Row)
    requires TagsOfRows(tags, rows)
    ensures var filed := if row.tag in tags then tags[row.tag] else {};
            TagsOfRows(tags[row.tag := filed + {row.filename}], rows + [row])
  {
    var filed := if row.tag in tags then tags[row.tag] else {};
    var tags' := tags[row.tag := filed + {row.filename}];
    var rows' := rows + [row];
    var n := |rows|;
    assert rows'[n] == row;
    forall t
      ensures t in tags' <==> exists k :: 0 <= k < |rows'| && rows'[k].tag == t
    {
      if t in tags && t != row.tag {
        var k :| 0 <= k < n && rows[k].tag == t;
        assert rows'[k].tag == t;
      }
    }
    forall t, f | t in tags'
      ensures f in tags'[t] <==> exists k :: 0 <= k < |rows'| && rows'[k].tag == t && rows'[k].filename == f
    {
      if t != row.tag {
        if f in tags'[t] {
          var k :| 0 <= k < n && rows[k].tag == t && rows[k].filename == f;
          assert rows'[k].tag == t && rows'[k].filename == f;
        }
      } else if t in tags && f in tags[t] {
        var k :| 0 <= k < n && rows[k].tag == t && rows[k].filename == f;
        assert rows'[k].tag == t && rows'[k].filename == f;
      }
    }
  }

  /** Appending a tag to the key list exactly when it is new keeps the list in step with tags_dict. */
  lemma AddRowKeys(keys: seq<string>, tags: map<string, set<string>>, t: string, filed: set<string>)
    requires KeysOf(keys, tags)
    ensures KeysOf(if t in tags then keys else keys + [t], tags[t := filed])
  {
  }

  /** Every successful parse leaves tags_dict and its key order consistent with rows. */
  lemma {:induction false} ParseConsistent(csv: seq<seq<string>>, n: nat)
    requires n <= |csv| && Parse(csv, n).Ok?
    ensures Consistent(Parse(csv, n).value)
  {
    if n > 0 {
      ParseConsistent(csv, n - 1);
      var p := Parse(csv, n - 1).value;
      if |csv[n - 1]| == 4 && n - 1 > 0 {
        AddRowConsistent(p, RowOf(csv[n - 1]));
      }
    }
  }

  /** The tag column of rows, in order. */
  function TagColumn(rows: seq<Row>): (ts: seq<string>)
    ensures |ts| == |rows| && forall k :: 0 <= k < |rows| ==> ts[k] == rows[k].tag
  {
    if |rows| == 0 then [] else TagColumn(rows[..|rows| - 1]) + [rows[|rows| - 1].tag]
  }

  /** Each tag once, in the order of its first occurrence. */
  function FirstOccurrences(ts: seq<string>): seq<string>
  {
    if |ts| == 0 then []
    else
      var prefix := FirstOccurrences(ts[..|ts| - 1]);
      if ts[|ts| - 1] in prefix then prefix else prefix + [ts[|ts| - 1]]
  }

  lemma {:induction false} FirstOccurrencesMembers(ts: seq<string>, t: string)
    ensures t in FirstOccurrences(ts) <==> t in ts
  {
    if |ts| > 0 {
      FirstOccurrencesMembers(ts[..|ts| - 1], t);
      assert ts == ts[..|ts| - 1] + [ts[|ts| - 1]];
    }
  }

  /** The keys of tags_dict come in the order their tags first occur among the data rows. */
  lemma {:induction false} ParseTagOrder(csv: seq<seq<string>>, n: nat)
    requires n <= |csv| && Parse(csv, n).Ok?
    ensures Parse(csv, n).value.tagKeys == FirstOccurrences(TagColumn(Parse(csv, n).value.rows))
  {
    if n > 0 {
      ParseTagOrder(csv, n - 1);
      var p := Parse(csv, n - 1).value;
      if |csv[n - 1]| == 4 && n - 1 > 0 {
        ParseConsistent(csv, n - 1);
        TagFiledIffListed(p.tags, p.rows, RowOf(csv[n - 1]).tag);
        AddRowTagOrder(p, RowOf(csv[n - 1]));
      }
    }
  }

  /** A tag is a key of tags_dict exactly when it is in the rows' tag column. */
  lemma TagFiledIffListed(tags: map<string, set<string>>, rows: seq<Row>, t: string)
    requires TagsOfRows(tags, rows)
    ensures t in tags <==> t in TagColumn(rows)
  {
    if t in TagColumn(rows) {
      var k :| 0 <= k < |rows| && TagColumn(rows)[k] == t;
      assert rows[k].tag == t;
    }
  }

  /** Filing a row appends its tag to the key order exactly when the tag first occurs. */
  lemma AddRowTagOrder(p: Parsed, row: Row)
    requires row.tag in p.tags <==> row.tag in TagColumn(p.rows)
    requires p.tagKeys == FirstOccurrences(TagColumn(p.rows))
    ensures AddRow(p, row).tagKeys == FirstOccurrences(TagColumn(AddRow(p, row).rows))
  {
    var q := AddRow(p, row);
    FirstOccurrencesMembers(TagColumn(p.rows), row.tag);
    assert q.rows[..|q.rows| - 1] == p.rows;
    var ts := TagColumn(q.rows);
    assert ts[..|ts| - 1] == TagColumn(p.rows) && ts[|ts| - 1] == row.tag;
  }

  /** One entry of filters.json. */
  datatype Filter = Filter(filterName: string, filterValues: seq<string>)

  /** filters.json: the header's filter name and the keys of tags_dict. */
  function Filters(p: Parsed): seq<Filter>
  {
    [Filter(p.selectName, p.tagKeys)]
  }

  /** filters.json lists every tag of the data rows exactly once, and only those. */
  lemma FiltersListTags(csv: seq<seq<string>>)
    requires Parse(csv, |csv|).Ok?
    ensures var p := Parse(csv, |csv|).value;
            var values := Filters(p)[0].filterValues;
            (forall t :: t in values <==> exists k :: 0 <= k < |p.rows| && p.rows[k].tag == t) &&
            (forall a, b :: 0 <= a < b < |values| ==> values[a] != values[b])
  {
    ParseConsistent(csv, |csv|);
  }

  /** The option file of one tag: filters/option_values/<tag>.json and its filenames. */
  function OptionPath(outputDir: string, tag: string): string
  {
    PathJoin(PathJoin(PathJoin(outputDir, "filters"), "option_values"), tag + ".json")
  }

  /** The per-row record written to metadata/<base filename>.json. */
  datatype MetadataRecord = MetadataRecord(filename: string, tags: seq<string>, year: string, title: string,
                                           text: string, permalink: string)

  function Record(row: Row): MetadataRecord
  {
    MetadataRecord(row.filename, [row.tag], "", row.filename, row.description, row.permalink)
  }

  /** The record keeps the whole row: filename, its one tag, description and permalink come back out. */
  function RowOfRecord(rec: MetadataRecord): (row: Row)
    requires |rec.tags| == 1
    ensures rec.year == "" && rec.title == rec.filename ==> Record(row) == rec
  {
    Row(rec.filename, rec.tags[0], rec.text, rec.permalink)
  }

  lemma RecordRoundTrip(row: Row)
    ensures |Record(row).tags| == 1 && RowOfRecord(Record(row)) == row
  {
  }

  function RecordPath(outputDir: string, row: Row): string
  {
    PathJoin(PathJoin(outputDir, "metadata"), GetBaseFilename(row.filename) + ".json")
  }

  /** The record of a row is named after its file: metadata/<stem>.json. */
  lemma RecordPathNamed(outputDir: string, row: Row)
    ensures '/' !in GetBaseFilename(row.filename) ==>
              Basename(RecordPath(outputDir, row)) == GetBaseFilename(row.filename) + ".json"
  {
    if '/' !in GetBaseFilename(row.filename) {
      assert '/' !in GetBaseFilename(row.filename) + ".json";
      BasenameOfJoin(PathJoin(outputDir, "metadata"), GetBaseFilename(row.filename) + ".json");
    }
  }
}
