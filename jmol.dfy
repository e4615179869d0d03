/**
 * JmolPageGenerator: the HTML page that shows a job's structure in the 3-D viewer, and the
 * viewer selection attributes for an interface (its two chains, core and rim residues) and
 * for an assembly (one attribute pair per chain).
 *
 * The chain colours and the next-letter rule for chain renaming live in MolViewersHelper,
 * which is not part of this model; they enter as parameters.
 */
module JmolPage {
  import opened Seqs

  /** The burial region of an interface residue (the ResidueBurialDB constants). */
  datatype Region = CoreEvolutionary | CoreGeometry | RimEvolutionary | OtherRegion(code: int)

  /** An interface residue: its PDB residue number, its region, and the side (false: chain 1). */
  datatype Residue = Residue(pdbResidueNumber: string, region: Region, side: bool)

  /** What the selection code needs of an interface. */
  datatype InterfaceData = InterfaceData(chain1: string, chain2: string, operatorId: int, residues: seq<Residue>)

  /** The colours MolViewersHelper hands out. */
  datatype Colors = Colors(chainColor: string -> string, interf1Color: string, interf2Color: string)

  /** `s` starts with `prefix` (String.startsWith). */
  predicate StartsWith(s: string, prefix: string)
  {
    |prefix| <= |s| && s[..|prefix|] == prefix
  }

  /** `s` ends with `suffix` (String.endsWith). */
  predicate EndsWith(s: string, suffix: string)
  {
    |suffix| <= |s| && s[|s| - |suffix|..] == suffix
  }

  /** `t` occurs in `s` at position `k`. */
  predicate OccursAt(s: string, t: string, k: int)
  {
    0 <= k && k + |t| <= |s| && s[k..k + |t|] == t
  }

  /** Java's decimal rendering of an int. */
  function IntToString(n: int): (r: string)
    ensures r != [] && '\n' !in r
  {
    var digits := NatToString(if n < 0 then -n else n);
    assert forall i :: 0 <= i < |digits| ==> digits[i] != '\n';
    if n < 0 then "-" + digits else digits
  }

  /** The file is read as mmCIF unless its name ends with "pdb" and not with "cif". */
  function IsCif(fileName: string): (r: bool)
    ensures r <==> EndsWith(fileName, "cif") || !EndsWith(fileName, "pdb")
  {
    if EndsWith(fileName, "cif") then true
    else if EndsWith(fileName, "pdb") then false
    else true
  }

  /** The 3Dmol data-type attribute; blank when the suffix says nothing, so that the viewer guesses. */
  function DataTypeString(fileName: string): string
  {
    if EndsWith(fileName, "cif") then "data-type='cif' "
    else if EndsWith(fileName, "pdb") then "data-type='pdb' "
    else ""
  }

  /** The URL the viewer loads the structure from. */
  function FileUrl(serverUrl: string, resultsLocation: string, fileName: string): string
  {
    serverUrl + "/" + resultsLocation + "/" + fileName
  }

  /**
   * generatePage: the page loading the structure at `serverUrl/resultsLocation/fileName` into an
   * NGL stage of the given size. The file suffix is examined, but the selection code that would
   * use it is disabled, so it does not change the page.
   */
  method GeneratePage(title: string, size: string, serverUrl: string, resultsLocation: string,
                      fileName: string, url3dmoljs: string) returns (page: string)
    ensures StartsWith(page, Doctype)
    ensures EndsWith(page, HtmlEnd)
    ensures exists k :: OccursAt(page, FileUrl(serverUrl, resultsLocation, fileName), k)
  {
    var isCif := IsCif(fileName);
    var dataTypeString := DataTypeString(fileName);
    var fileUrl := FileUrl(serverUrl, resultsLocation, fileName);
    var jmolPage := Doctype;
    jmolPage := jmolPage + HeadAndBodyStart(title, url3dmoljs);
    jmolPage := jmolPage + (ScriptStart(url3dmoljs) + fileUrl + ScriptEnd(size));
    jmolPage := jmolPage + BodyEnd;
    jmolPage := jmolPage + HtmlEnd;
    page := jmolPage;
    PageShape(Doctype, HeadAndBodyStart(title, url3dmoljs), ScriptStart(url3dmoljs), fileUrl,
              ScriptEnd(size), BodyEnd, HtmlEnd);
  }

  const Doctype: string := "<!DOCTYPE html>"
  const BodyEnd: string := "</body>\n"
  const HtmlEnd: string := "</html>\n"

  /** The html and head elements, and the opening of the body. */
  function HeadAndBodyStart(title: string, url3dmoljs: string): string
  {
    "<html>" + "\n"
    + "<head>" + "\n"
    + "<title>" + "\n"
    + title + "\n"
    + "</title>" + "\n"
    + "<script src=\"" + url3dmoljs + "\"></script> \n"
    + "</head>" + "\n"
    + "<body>" + "\n"
  }

  /** The script that starts the NGL viewer, up to the URL of the file it loads. */
  function ScriptStart(url3dmoljs: string): string
  {
    "<script>"
    + "if( !Detector.webgl ) Detector.addGetWebGLMessage();"
    + "NGL.mainScriptFilePath = \"" + url3dmoljs + "\";"
    + "function onInit(){"
    + "\tvar stage = new NGL.Stage( \"viewport\" );"
    + "\tstage.loadFile( \""
  }

  /** The rest of the script after the file URL, and the viewport of the given size. */
  function ScriptEnd(size: string): string
  {
    "\", { defaultRepresentation: true } );"
    + "}"
    + "document.addEventListener( \"DOMContentLoaded\", function() {"
    + "\tNGL.init( onInit );"
    + "} );"
    + "</script>"
    + "<div id=\"viewport\" style=\"width:" + size + "px; height:" + size + "px;\"></div>"
  }

  /**
   * A page assembled from a prefix, a head, a script around a URL, and two closing pieces starts
   * with the prefix, ends with the last piece, and holds the URL.
   */
  lemma PageShape(first: string, head: string, pre: string, url: string, post: string,
                  closing1: string, closing2: string)
    ensures var page := first + head + (pre + url + post) + closing1 + closing2;
            StartsWith(page, first) && EndsWith(page, closing2)
            && OccursAt(page, url, |first| + |head| + |pre|)
  {
    var page := first + head + (pre + url + post) + closing1 + closing2;
    var k := |first| + |head| + |pre|;
    assert page[..|first|] == first;
    assert page[|page| - |closing2|..] == closing2;
    assert page[k..k + |url|] == url;
  }

  /** The PDB residue numbers of the residues, in order. */
  function Numbers(residues: seq<Residue>): seq<string>
  {
    seq(|residues|, i requires 0 <= i < |residues| => residues[i].pdbResidueNumber)
  }

  /** getCommaSeparatedList: the residue numbers joined by ',', with no separator after the last. */
  method GetCommaSeparatedList(residues: seq<Residue>) returns (s: string)
    ensures s == Join(',', Numbers(residues))
  {
    var nums := Numbers(residues);
    var sb := "";
    var i := 0;
    while i < |residues|
      invariant 0 <= i <= |residues|
      invariant i == 0 ==> sb == ""
      invariant 0 < i < |residues| ==> sb == Join(',', nums[..i]) + [',']
      invariant i == |residues| && i > 0 ==> sb == Join(',', nums[..i])
    {
      assert nums[..i + 1][..i] == nums[..i];
      if i == 0 {
        assert nums[..1] == [nums[0]];
      }
      sb := sb + residues[i].pdbResidueNumber;
      if i != |residues| - 1 {
        sb := sb + [','];
      }
      i := i + 1;
    }
    if |residues| > 0 {
      assert nums[..i] == nums;
    } else {
      assert nums == [];
    }
    s := sb;
  }

  /** Splitting the list at ',' gives back the residue numbers, when none holds a ',' and the last is not empty. */
  lemma CommaListRoundTrip(residues: seq<Residue>)
    requires residues != []
    requires forall i :: 0 <= i < |residues| ==> ',' !in residues[i].pdbResidueNumber
    requires |residues| == 1 || residues[|residues| - 1].pdbResidueNumber != ""
    ensures JavaSplit(Join(',', Numbers(residues)), ',') == Numbers(residues)
  {
    JavaSplitJoin(',', Numbers(residues));
  }

  /** Core residues (evolutionary or geometric core) of the first chain. */
  predicate InCore1(r: Residue)
  {
    (r.region == CoreEvolutionary || r.region == CoreGeometry) && !r.side
  }

  predicate InCore2(r: Residue)
  {
    (r.region == CoreEvolutionary || r.region == CoreGeometry) && r.side
  }

  /** Rim residues (evolutionary rim) of the first chain. */
  predicate InRim1(r: Residue)
  {
    r.region == RimEvolutionary && !r.side
  }

  predicate InRim2(r: Residue)
  {
    r.region == RimEvolutionary && r.side
  }

  /** The residues the viewer highlights: core or rim, on either side. */
  predicate Highlighted(r: Residue)
  {
    r.region == CoreEvolutionary || r.region == CoreGeometry || r.region == RimEvolutionary
  }

  /**
   * The loop of generateInterfaceSelection3dmolCode that sorts the interface residues into core
   * and rim lists of each side, keeping their order and dropping the other regions.
   */
  method PartitionResidues(residues: seq<Residue>)
    returns (coreResidues1: seq<Residue>, rimResidues1: seq<Residue>, coreResidues2: seq<Residue>, rimResidues2: seq<Residue>)
    ensures coreResidues1 == Filter(residues, InCore1) && rimResidues1 == Filter(residues, InRim1)
    ensures coreResidues2 == Filter(residues, InCore2) && rimResidues2 == Filter(residues, InRim2)
  {
    coreResidues1, rimResidues1, coreResidues2, rimResidues2 := [], [], [], [];
    var i := 0;
    while i < |residues|
      invariant 0 <= i <= |residues|
      invariant coreResidues1 == Filter(residues[..i], InCore1) && rimResidues1 == Filter(residues[..i], InRim1)
      invariant coreResidues2 == Filter(residues[..i], InCore2) && rimResidues2 == Filter(residues[..i], InRim2)
    {
      var residue := residues[i];
      assert residues[..i + 1][..i] == residues[..i];
      if residue.region == CoreEvolutionary || residue.region == CoreGeometry {
        if residue.side == false {
          coreResidues1 := coreResidues1 + [residue];
        } else if residue.side == true {
          coreResidues2 := coreResidues2 + [residue];
        }
      } else if residue.region == RimEvolutionary {
        if residue.side == false {
          rimResidues1 := rimResidues1 + [residue];
        } else if residue.side == true {
          rimResidues2 := rimResidues2 + [residue];
        }
      }
      i := i + 1;
    }
    assert residues[..i] == residues;
  }

  /**
   * The four lists partition the highlighted residues: each occurrence of a core or rim residue
   * is in exactly one list, and no other residue is in any.
   */
  lemma PartitionCounts(residues: seq<Residue>, x: Residue)
    ensures multiset(Filter(residues, InCore1))[x] + multiset(Filter(residues, InRim1))[x]
          + multiset(Filter(residues, InCore2))[x] + multiset(Filter(residues, InRim2))[x]
         == if Highlighted(x) then multiset(residues)[x] else 0
    ensures (InCore1(x) ==> !InRim1(x) && !InCore2(x) && !InRim2(x))
         && (InRim1(x) ==> !InCore2(x) && !InRim2(x))
         && (InCore2(x) ==> !InRim2(x))
  {
    FilterCount(residues, InCore1, x);
    FilterCount(residues, InRim1, x);
    FilterCount(residues, InCore2, x);
    FilterCount(residues, InRim2, x);
  }

  /**
   * The chain the second chain of an interface is selected as: when both chains have the same
   * id, the mmCIF writer names the symmetry copy `chain_operatorId` and the PDB writer the next
   * letter after the first character (charAt(0) of an empty id throws).
   */
  function SecondChain(chain1: string, chain2: string, isCif: bool, operatorId: int, nextLetter: char -> char): (r: Result<string>)
    ensures chain1 != chain2 ==> r == Success(chain2)
    ensures r.Failure? <==> chain1 == chain2 && !isCif && chain1 == ""
    ensures r.Success? && chain1 == chain2 && isCif ==> |r.value| > |chain1| && r.value[..|chain1|] == chain1
    ensures r.Success? && chain1 == chain2 && !isCif ==> |r.value| == 1
  {
    if chain1 == chain2 then
      if isCif then Success(chain2 + "_" + IntToString(operatorId))
      else if chain1 == "" then Failure
      else Success([nextLetter(chain1[0])])
    else Success(chain2)
  }

  /** One numbered pair of selection and style attributes, without its line end. */
  function Attribute(i: nat, select: string, style: string): string
  {
    "data-select" + NatToString(i) + "='" + select + "' " + "data-style" + NatToString(i) + "='" + style + "' "
  }

  /**
   * generateInterfaceSelection3dmolCode: chain 1 and chain 2 (renamed when both are the same
   * chain), then the core and rim residues of each side, as six numbered attribute pairs.
   */
  method GenerateInterfaceSelection(interfData: InterfaceData, isCif: bool, colors: Colors, nextLetter: char -> char)
    returns (r: Result<string>)
    ensures r.Failure? <==> SecondChain(interfData.chain1, interfData.chain2, isCif, interfData.operatorId, nextLetter).Failure?
    ensures r.Success? ==>
      var chain1 := interfData.chain1;
      var chain2 := SecondChain(interfData.chain1, interfData.chain2, isCif, interfData.operatorId, nextLetter).value;
      var color1, color2 := colors.chainColor(chain1), colors.chainColor(chain2);
      var rs := interfData.residues;
      r.value ==
        Attribute(1, "chain:" + chain1, "cartoon:color=" + color1) + "\n"
      + Attribute(2, "chain:" + chain2, "cartoon:color=" + color2) + "\n"
      + Attribute(3, "resi:" + Join(',', Numbers(Filter(rs, InCore1))) + ";chain:" + chain1,
                  "cartoon:color=" + color1 + ";stick:color=" + colors.interf1Color) + "\n"
      + Attribute(4, "resi:" + Join(',', Numbers(Filter(rs, InRim1))) + ";chain:" + chain1,
                  "cartoon:color=" + color1 + ";stick:color=" + color1) + "\n"
      + Attribute(5, "resi:" + Join(',', Numbers(Filter(rs, InCore2))) + ";chain:" + chain2,
                  "cartoon:color=" + color2 + ";stick:color=" + colors.interf2Color) + "\n"
      + Attribute(6, "resi:" + Join(',', Numbers(Filter(rs, InRim2))) + ";chain:" + chain2,
                  "cartoon:color=" + color2 + ";stick:color=" + color2) + "\n"
  {
    var chain1 := interfData.chain1;
    var chain2 := interfData.chain2;
    if chain1 == chain2 {
      if isCif {
        chain2 := chain2 + "_" + IntToString(interfData.operatorId);
      } else {
        if chain1 == "" {
          return Failure;
        }
        chain2 := [nextLetter(chain1[0])];
      }
    }
    var color1 := colors.chainColor(chain1);
    var color2 := colors.chainColor(chain2);
    var coreResidues1, rimResidues1, coreResidues2, rimResidues2 := PartitionResidues(interfData.residues);
    var core1 := GetCommaSeparatedList(coreResidues1);
    var rim1 := GetCommaSeparatedList(rimResidues1);
    var core2 := GetCommaSeparatedList(coreResidues2);
    var rim2 := GetCommaSeparatedList(rimResidues2);
    r := Success(
        Attribute(1, "chain:" + chain1, "cartoon:color=" + color1) + "\n"
      + Attribute(2, "chain:" + chain2, "cartoon:color=" + color2) + "\n"
      + Attribute(3, "resi:" + core1 + ";chain:" + chain1, "cartoon:color=" + color1 + ";stick:color=" + colors.interf1Color) + "\n"
      + Attribute(4, "resi:" + rim1 + ";chain:" + chain1, "cartoon:color=" + color1 + ";stick:color=" + color1) + "\n"
      + Attribute(5, "resi:" + core2 + ";chain:" + chain2, "cartoon:color=" + color2 + ";stick:color=" + colors.interf2Color) + "\n"
      + Attribute(6, "resi:" + rim2 + ";chain:" + chain2, "cartoon:color=" + color2 + ";stick:color=" + color2) + "\n");
  }

  /** The attribute line of each chain of an assembly, numbered from 1. */
  function ChainLines(chainIds: seq<string>, chainColor: string -> string): (r: seq<string>)
    ensures |r| == |chainIds|
  {
    seq(|chainIds|, i requires 0 <= i < |chainIds| => Attribute(i + 1, "chain:" + chainIds[i], "cartoon:color=" + chainColor(chainIds[i])))
  }

  /** Every line followed by a line end. */
  function Terminated(lines: seq<string>): (r: seq<string>)
    ensures |r| == |lines|
  {
    seq(|lines|, i requires 0 <= i < |lines| => lines[i] + "\n")
  }

  /** The code for an assembly without chain ids: a cartoon with one colour for everything. */
  const DefaultStyle: string := "data-style='cartoon'\n"

  /**
   * generateAssemblySelection3dmolCode: for each chain id of the comma-separated list, a
   * numbered pair of attributes selecting the chain and colouring it; the default cartoon style
   * when the list is null.
   */
  method GenerateAssemblySelection(chainIdsString: Option<string>, chainColor: string -> string) returns (s: string)
    ensures chainIdsString.None? ==> s == DefaultStyle
    ensures chainIdsString.Some? ==> s == Flatten(Terminated(ChainLines(JavaSplit(chainIdsString.value, ','), chainColor)))
  {
    if chainIdsString.None? {
      return DefaultStyle;
    }
    var chainIds := JavaSplit(chainIdsString.value, ',');
    ghost var lines := Terminated(ChainLines(chainIds, chainColor));
    var sb := "";
    var i := 1;
    while i <= |chainIds|
      invariant 1 <= i <= |chainIds| + 1
      invariant sb == Flatten(lines[..i - 1])
    {
      var chainId := chainIds[i - 1];
      assert lines[..i][..i - 1] == lines[..i - 1];
      sb := sb + Attribute(i, "chain:" + chainId, "cartoon:color=" + chainColor(chainId)) + "\n";
      i := i + 1;
    }
    assert lines[..i - 1] == lines;
    s := sb;
  }

  /** Lines without line ends, each terminated and concatenated, split back at the line ends. */
  lemma {:induction false} SplitTerminated(lines: seq<string>)
    requires forall i :: 0 <= i < |lines| ==> '\n' !in lines[i]
    ensures SplitAll(Flatten(Terminated(lines)), '\n') == lines + [""]
    decreases |lines|
  {
    if lines == [] {
      assert Terminated(lines) == [];
    } else {
      var rest := lines[1..];
      assert Terminated(lines) == [lines[0] + "\n"] + Terminated(rest);
      FlattenAppend([lines[0] + "\n"], Terminated(rest));
      assert Flatten([lines[0] + "\n"]) == lines[0] + "\n" by {
        assert [lines[0] + "\n"][..0] == [];
      }
      SplitAllCons(lines[0], '\n', Flatten(Terminated(rest)));
      SplitTerminated(rest);
      assert lines == [lines[0]] + rest;
    }
  }

  /**
   * The assembly code is one line per chain id, the line of the i-th id carrying the attributes
   * numbered i, when neither the ids nor their colours hold a line end.
   */
  lemma AssemblySelectionLines(chainIds: seq<string>, chainColor: string -> string)
    requires forall i :: 0 <= i < |chainIds| ==> '\n' !in chainIds[i] && '\n' !in chainColor(chainIds[i])
    ensures var ls := ChainLines(chainIds, chainColor);
            && SplitAll(Flatten(Terminated(ls)), '\n') == ls + [""]
            && forall i :: 0 <= i < |ls| ==> ls[i] == Attribute(i + 1, "chain:" + chainIds[i], "cartoon:color=" + chainColor(chainIds[i]))
  {
    var ls := ChainLines(chainIds, chainColor);
    forall i | 0 <= i < |ls| ensures '\n' !in ls[i] {
      var id := chainIds[i];
      assert "chain:" + id == ['c', 'h', 'a', 'i', 'n', ':'] + id;
      assert "cartoon:color=" + chainColor(id) == ['c', 'a', 'r', 't', 'o', 'o', 'n', ':', 'c', 'o', 'l', 'o', 'r', '='] + chainColor(id);
      AttributeOneLine(i + 1, "chain:" + id, "cartoon:color=" + chainColor(id));
    }
    SplitTerminated(ls);
  }

  /** An attribute pair whose selection and style hold no line end holds none. */
  lemma AttributeOneLine(i: nat, select: string, style: string)
    requires '\n' !in select && '\n' !in style
    ensures '\n' !in Attribute(i, select, style)
  {
    var n := NatToString(i);
    assert forall j :: 0 <= j < |n| ==> n[j] != '\n';
  }
}
