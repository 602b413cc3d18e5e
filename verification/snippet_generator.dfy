/**
 The editor snippet for a new profile (`models/snippet_generator.py`): a
 fixed scaffold of eleven lines with tab stops, naming one document type
 and an empty `akomaNtoso` entry.
 */
module SnippetGenerator {
  import opened Wrappers
  import opened Strings
  import opened Schema
  import Generator

  /** `get_document_types(schema)`: the children `akomaNtoso` allows. */
  function GetDocumentTypes(s: AknSchema): (r: seq<string>)
    ensures !HasElement(s, "akomaNtoso") ==> r == []
    ensures |r| == |GetChildren(s, "akomaNtoso")|
    ensures forall i :: 0 <= i < |r| ==> r[i] == GetElementInfo(s, "akomaNtoso").value.children[i].name
  {
    GetChildren(s, "akomaNtoso")
  }

  /** The scaffold's lines; line 7 names the document type, line 10 the root, line 11 is the final cursor stop. */
  function SnippetLines(docType: string): (lines: seq<string>)
    ensures |lines| == 11
  {
    [ KeyLine("", "profile", ""),
      KeyLine("  ", "name", " \"${1:Profile Name}\""),
      KeyLine("  ", "version", " \"${2:1.0}\""),
      KeyLine("  ", "description", " \"${3:Description of this application profile}\""),
      "",
      KeyLine("  ", "documentTypes", ""),
      "    - " + docType,
      "",
      KeyLine("  ", "elements", ""),
      KeyLine("    ", "akomaNtoso", ""),
      "$0" ]
  }

  /** The line `indent key:rest`. */
  function KeyLine(indent: string, key: string, rest: string): string
  {
    indent + key + ":" + rest
  }

  /** The `ValueError` for a document type `akomaNtoso` does not allow. */
  datatype SnippetError = InvalidDocumentType(docType: string, valid: seq<string>)

  /**
   `generate_snippet(schema, doc_type)`: a `ValueError` unless the
   document type is valid; otherwise the scaffold joined by newlines.
   */
  function GenerateSnippet(s: AknSchema, docType: string): (r: Result<string, SnippetError>)
    ensures r.Err? <==> docType !in GetDocumentTypes(s)
    ensures r.Ok? ==> r.value == Join(SnippetLines(docType), "\n")
  {
    var valid := GetDocumentTypes(s);
    if docType !in valid then Err(InvalidDocumentType(docType, valid))
    else Ok(Join(SnippetLines(docType), "\n"))
  }

  /** The snippet and the profile generator accept exactly the same document types. */
  lemma SnippetAgreesWithGenerator(s: AknSchema, docType: string, o: Generator.Options)
    ensures GenerateSnippet(s, docType).Ok? <==> Generator.GenerateProfile(s, docType, o).Ok?
  {
  }

  /** The scaffold declares exactly the one document type it was asked for. */
  lemma SnippetDocumentTypes(docType: string)
    ensures Generator.ReadDocumentTypes(SnippetLines(docType)) == [docType]
  {
    var lines := SnippetLines(docType);
    var key := "  documentTypes:";
    var h := lines[..5];
    var rest := lines[7..];
    assert key !in h by {
      assert key[2] == 'd' && key[3] == 'o';
      assert h[0][2] == 'o' && h[1][2] == 'n' && h[2][2] == 'v' && h[3][3] == 'e';
    }
    assert lines == h + ([key] + (Generator.Items("    - ", [docType]) + rest)) by {
      assert lines[5] == key;
      assert Generator.Items("    - ", [docType]) == [lines[6]];
      assert lines == h + [lines[5]] + [lines[6]] + rest;
    }
    assert rest[0] == "" && !StartsWith(rest[0], "    - ");
    Generator.ReadSection(h, [docType], rest);
  }
}
