/** `validate_data` (all three scripts): are all reference keys known PMIDs? */
module Validation {
  import opened Works

  /** `id` is the PMID of some entry. */
  predicate IsKnownPmid(preparedData: seq<Entry>, id: nat) {
    exists k :: 0 <= k < |preparedData| && preparedData[k].pmid == id
  }

  /** Every `item` of every entry's `c04_referencelist` is a known PMID. */
  predicate AllReferencesKnown(preparedData: seq<Entry>) {
    forall i, j :: 0 <= i < |preparedData| && 0 <= j < |preparedData[i].referenceList| ==>
      IsKnownPmid(preparedData, preparedData[i].referenceList[j])
  }

  /** The references of entry `i` before position `n` are all known. */
  predicate RefsKnownUpTo(preparedData: seq<Entry>, i: nat, n: nat)
    requires i < |preparedData| && n <= |preparedData[i].referenceList|
  {
    forall j :: 0 <= j < n ==> IsKnownPmid(preparedData, preparedData[i].referenceList[j])
  }

  /** `validate_data`: a `valid` flag cleared by every unknown reference. The
      loops do not stop at the first unknown reference (each one is printed);
      the printing is not modelled. */
  method ValidateData(preparedData: seq<Entry>) returns (valid: bool)
    ensures valid <==> AllReferencesKnown(preparedData)
  {
    var allIds := set k | 0 <= k < |preparedData| :: preparedData[k].pmid;
    valid := true;
    var i := 0;
    while i < |preparedData|
      invariant 0 <= i <= |preparedData|
      invariant valid <==> forall i' :: 0 <= i' < i ==>
                  RefsKnownUpTo(preparedData, i', |preparedData[i'].referenceList|)
    {
      var refs := preparedData[i].referenceList;
      ghost var before := valid;
      var j := 0;
      while j < |refs|
        invariant 0 <= j <= |refs|
        invariant valid <==> before && RefsKnownUpTo(preparedData, i, j)
      {
        if refs[j] !in allIds {
          valid := false;
        }
        j := j + 1;
      }
      i := i + 1;
    }
  }
}
