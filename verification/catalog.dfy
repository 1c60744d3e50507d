/** The catalogue operations of the medicine store: `addMedicine`,
    `updateMedicine` and `removeMedicine` (lib/medicine-context.tsx). */
module Catalog {
  import opened Wrappers
  import opened Medicines

  /** The editable fields of a stored medicine, in the shape the form sends. */
  function InputOf(m: Medicine): MedicineInput {
    MedicineInput(m.name, m.dosage, m.timing, m.frequency, m.specificDays, m.startDate, m.endDate)
  }

  /** `addMedicine`: appends a medicine built from the input, the fresh id and the
      creation instant. The input has no `dayConfigurations` key, so the new
      medicine has none. */
  function AddMedicine(meds: seq<Medicine>, input: MedicineInput, id: string, createdAt: int): (r: seq<Medicine>)
    ensures |r| == |meds| + 1 && r[..|meds|] == meds
    ensures var m := r[|meds|]; m.id == id && m.createdAt == createdAt && InputOf(m) == input && m.dayConfigurations.None?
  {
    meds + [Medicine(id, input.name, input.dosage, input.timing, input.frequency,
                     input.specificDays, None, input.startDate, input.endDate, createdAt)]
  }

  /** Adding under an id no stored medicine has keeps the ids distinct. */
  lemma AddKeepsIdsDistinct(meds: seq<Medicine>, input: MedicineInput, id: string, createdAt: int)
    requires DistinctIds(meds) && !HasMedicine(meds, id)
    ensures DistinctIds(AddMedicine(meds, input, id, createdAt))
  {
    var r := AddMedicine(meds, input, id, createdAt);
    forall i, j | 0 <= i < j < |r|
      ensures r[i].id != r[j].id
    {
      if j == |meds| {
        assert r[i] == meds[i];
      } else {
        assert r[i] == meds[i] && r[j] == meds[j];
      }
    }
  }

  /** `updateMedicine`: `{ ...medicine, ...input }` on the medicine(s) with the
      given id. The input's fields replace the stored ones; the id, the creation
      instant and the stored `dayConfigurations` (a key the input lacks) are
      kept; every other medicine is left as it was, in place. */
  function UpdateMedicine(meds: seq<Medicine>, id: string, input: MedicineInput): (r: seq<Medicine>)
    ensures |r| == |meds|
    ensures forall i :: 0 <= i < |meds| && meds[i].id != id ==> r[i] == meds[i]
    ensures forall i :: 0 <= i < |meds| && meds[i].id == id ==>
      && InputOf(r[i]) == input
      && r[i].id == id
      && r[i].createdAt == meds[i].createdAt
      && r[i].dayConfigurations == meds[i].dayConfigurations
  {
    if |meds| == 0 then []
    else
      var m := meds[0];
      var head := if m.id == id then
        m.(name := input.name, dosage := input.dosage, timing := input.timing, frequency := input.frequency,
           specificDays := input.specificDays, startDate := input.startDate, endDate := input.endDate)
      else m;
      [head] + UpdateMedicine(meds[1..], id, input)
  }

  /** Saving a medicine's own fields back is a no-op, and an update never
      changes the sequence of ids, so distinct ids stay distinct. */
  lemma UpdateWithOwnFieldsIsIdentity(meds: seq<Medicine>, i: nat)
    requires DistinctIds(meds) && i < |meds|
    ensures UpdateMedicine(meds, meds[i].id, InputOf(meds[i])) == meds
  {
    var r := UpdateMedicine(meds, meds[i].id, InputOf(meds[i]));
    forall k | 0 <= k < |meds|
      ensures r[k] == meds[k]
    {
      if k != i {
        assert meds[k].id != meds[i].id;
      }
    }
  }

  lemma UpdateKeepsIdsDistinct(meds: seq<Medicine>, id: string, input: MedicineInput)
    requires DistinctIds(meds)
    ensures DistinctIds(UpdateMedicine(meds, id, input))
  {
    var r := UpdateMedicine(meds, id, input);
    assert forall k :: 0 <= k < |meds| ==> r[k].id == meds[k].id;
  }

  /** `medicines.filter(m => m.id !== id)`. */
  function WithoutMedicine(meds: seq<Medicine>, id: string): (r: seq<Medicine>)
    ensures |r| <= |meds|
    ensures forall m :: m in r <==> m in meds && m.id != id
  {
    if |meds| == 0 then []
    else (if meds[0].id == id then [] else [meds[0]]) + WithoutMedicine(meds[1..], id)
  }

  /** `logs.filter(l => l.medicineId !== id)`. */
  function WithoutLogsOf(logs: seq<LogEntry>, id: string): (r: seq<LogEntry>)
    ensures |r| <= |logs|
    ensures forall e :: e in r <==> e in logs && e.medicineId != id
  {
    if |logs| == 0 then []
    else (if logs[0].medicineId == id then [] else [logs[0]]) + WithoutLogsOf(logs[1..], id)
  }

  /** `removeMedicine`: drops the medicine and, in cascade, every log entry that
      refers to it. */
  function RemoveMedicine(meds: seq<Medicine>, logs: seq<LogEntry>, id: string): (r: (seq<Medicine>, seq<LogEntry>))
    ensures !HasMedicine(r.0, id)
    ensures forall e :: e in r.1 ==> e.medicineId != id
    ensures forall m :: m in meds && m.id != id ==> m in r.0
    ensures forall e :: e in logs && e.medicineId != id ==> e in r.1
  {
    (WithoutMedicine(meds, id), WithoutLogsOf(logs, id))
  }

  /** The filters keep the survivors in their original order: filtering a
      concatenation is concatenating the filtered parts. */
  lemma {:induction false} WithoutMedicineDistributes(a: seq<Medicine>, b: seq<Medicine>, id: string)
    ensures WithoutMedicine(a + b, id) == WithoutMedicine(a, id) + WithoutMedicine(b, id)
  {
    if |a| > 0 {
      assert (a + b)[1..] == a[1..] + b;
      WithoutMedicineDistributes(a[1..], b, id);
    } else {
      assert a + b == b;
    }
  }

  lemma {:induction false} WithoutLogsOfDistributes(a: seq<LogEntry>, b: seq<LogEntry>, id: string)
    ensures WithoutLogsOf(a + b, id) == WithoutLogsOf(a, id) + WithoutLogsOf(b, id)
  {
    if |a| > 0 {
      assert (a + b)[1..] == a[1..] + b;
      WithoutLogsOfDistributes(a[1..], b, id);
    } else {
      assert a + b == b;
    }
  }

  /** Removing an id nothing refers to changes nothing. */
  lemma {:induction false} RemoveUnknownIsIdentity(meds: seq<Medicine>, logs: seq<LogEntry>, id: string)
    requires !HasMedicine(meds, id)
    requires forall e :: e in logs ==> e.medicineId != id
    ensures RemoveMedicine(meds, logs, id) == (meds, logs)
  {
    WithoutMedicineUnknown(meds, id);
    WithoutLogsOfUnknown(logs, id);
  }

  lemma {:induction false} WithoutMedicineUnknown(meds: seq<Medicine>, id: string)
    requires !HasMedicine(meds, id)
    ensures WithoutMedicine(meds, id) == meds
  {
    if |meds| > 0 {
      assert meds[0].id != id;
      assert !HasMedicine(meds[1..], id) by {
        assert forall i :: 0 <= i < |meds| - 1 ==> meds[1..][i] == meds[i + 1];
      }
      WithoutMedicineUnknown(meds[1..], id);
      assert meds == [meds[0]] + meds[1..];
    }
  }

  lemma {:induction false} WithoutLogsOfUnknown(logs: seq<LogEntry>, id: string)
    requires forall e :: e in logs ==> e.medicineId != id
    ensures WithoutLogsOf(logs, id) == logs
  {
    if |logs| > 0 {
      assert logs[0] in logs;
      WithoutLogsOfUnknown(logs[1..], id);
      assert logs == [logs[0]] + logs[1..];
    }
  }

  /** Filtering keeps distinct ids distinct. */
  lemma {:induction false} WithoutMedicineKeepsIdsDistinct(meds: seq<Medicine>, id: string)
    requires DistinctIds(meds)
    ensures DistinctIds(WithoutMedicine(meds, id))
  {
    if |meds| > 0 {
      var rest := WithoutMedicine(meds[1..], id);
      assert DistinctIds(meds[1..]) by {
        assert forall i :: 0 <= i < |meds| - 1 ==> meds[1..][i] == meds[i + 1];
      }
      WithoutMedicineKeepsIdsDistinct(meds[1..], id);
      forall k | 0 <= k < |rest|
        ensures rest[k].id != meds[0].id
      {
        assert rest[k] in meds[1..];
      }
    }
  }
}
