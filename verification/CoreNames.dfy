/** Package names that must not enter the core closure. */
module CoreNames {

  const PROHIBITED_PACKAGES := {"fastembed", "kanaria", "lance", "lancedb", "ort", "ort-sys"}

  predicate CoreName(name: string) {
    name !in PROHIBITED_PACKAGES && !("fastembed-" <= name) && !("kanaria-" <= name) && !("lance-" <= name)
    && !("lancedb-" <= name) && !("ort-" <= name)
  }

  // str.lower on ASCII text.
  function Lower(s: string): string {
    seq(|s|, i requires 0 <= i < |s| => if 'A' <= s[i] <= 'Z' then s[i] - 'A' + 'a' else s[i])
  }

  // A name is prohibited exactly if it is one of five stems, alone or followed by a hyphen.
  lemma {:induction false} CoreNameExact(name: string)
    ensures !CoreName(name) <==>
            exists stem :: stem in {"fastembed", "kanaria", "lance", "lancedb", "ort"}
              && (name == stem || stem + "-" <= name)
  {
    var stems := {"fastembed", "kanaria", "lance", "lancedb", "ort"};
    assert "fastembed" + "-" == "fastembed-" && "kanaria" + "-" == "kanaria-" && "lance" + "-" == "lance-";
    assert "lancedb" + "-" == "lancedb-" && "ort" + "-" == "ort-" && "ort-" <= "ort-sys";
    if name in PROHIBITED_PACKAGES && name != "ort-sys" { assert name in stems; }
    if "fastembed-" <= name { assert "fastembed" in stems && "fastembed" + "-" <= name; }
    if "kanaria-" <= name { assert "kanaria" in stems && "kanaria" + "-" <= name; }
    if "lance-" <= name { assert "lance" in stems && "lance" + "-" <= name; }
    if "lancedb-" <= name { assert "lancedb" in stems && "lancedb" + "-" <= name; }
    if "ort-" <= name { assert "ort" in stems && "ort" + "-" <= name; }
  }

  // Folding keeps the length, moves each capital by the 32 code points to its small letter, and keeps everything else.
  lemma {:induction false} LowerExact(s: string, i: nat)
    requires i < |s|
    ensures |Lower(s)| == |s|
    ensures 65 <= s[i] as int <= 90 ==> Lower(s)[i] as int == s[i] as int + 32
    ensures s[i] as int < 65 || s[i] as int > 90 ==> Lower(s)[i] == s[i]
  {
    assert 'A' as int == 65 && 'Z' as int == 90 && 'a' as int == 97;
  }
}
