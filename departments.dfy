/**
 * The static department registry: every supported department with the URL of
 * its announcement listing page and its faculty, in the order the registry lists
 * them, and the three lookups over it.
 */
module Departments {
  import opened Wrappers
  import Text

  /** One registry entry. Every listing URL in the registry has the form
      `https://<host>/tr/<slug>/duyuru/birim/<unit>`; the entry keeps those parts
      and `Url()` assembles exactly the string the registry holds. */
  datatype Department = Department(name: string, host: string, slug: string, unit: string, faculty: string)
  {
    function Url(): string
    {
      "https://" + host + "/tr/" + slug + ListingPath + unit
    }
  }

  /** The path segment that marks an announcement listing page. */
  const ListingPath: string := "/duyuru/birim/"

  const EngineeringAndNaturalSciences: string := "Mühendislik ve Doğa Bilimleri Fakültesi"
  const Forestry: string := "Orman Fakültesi"
  const HumanAndSocialSciences: string := "İnsan ve Toplum Bilimleri Fakültesi"
  const ArchitectureAndDesign: string := "Mimarlık ve Tasarım Fakültesi"
  const Dentistry: string := "Diş Hekimliği Fakültesi"

  /** The registry, in its declaration order (a Python dict keeps insertion order). */
  const Registry: seq<Department> := [
    Department("Bilgisayar Mühendisliği", "mdbf.btu.edu.tr", "bilgisayar", "193", EngineeringAndNaturalSciences),
    Department("Yapay Zeka Mühendisliği", "mdbf.btu.edu.tr", "yapayzeka", "10334", EngineeringAndNaturalSciences),
    Department("Biyomühendislik", "mdbf.btu.edu.tr", "biyomuh", "149", EngineeringAndNaturalSciences),
    Department("Çevre Mühendisliği", "mdbf.btu.edu.tr", "cevre", "148", EngineeringAndNaturalSciences),
    Department("Elektrik-Elektronik Mühendisliği", "mdbf.btu.edu.tr", "elektrik", "146", EngineeringAndNaturalSciences),
    Department("Endüstri Mühendisliği", "mdbf.btu.edu.tr", "endustri", "151", EngineeringAndNaturalSciences),
    Department("Fizik", "mdbf.btu.edu.tr", "fizik", "10074", EngineeringAndNaturalSciences),
    Department("Gıda Mühendisliği", "mdbf.btu.edu.tr", "gida", "144", EngineeringAndNaturalSciences),
    Department("İnşaat Mühendisliği", "mdbf.btu.edu.tr", "insaat", "143", EngineeringAndNaturalSciences),
    Department("Kimya", "mdbf.btu.edu.tr", "kimya", "140", EngineeringAndNaturalSciences),
    Department("Kimya Mühendisliği", "mdbf.btu.edu.tr", "kimyamuh", "142", EngineeringAndNaturalSciences),
    Department("Makine Mühendisliği", "mdbf.btu.edu.tr", "makine", "137", EngineeringAndNaturalSciences),
    Department("Matematik", "mdbf.btu.edu.tr", "matematik", "141", EngineeringAndNaturalSciences),
    Department("Mekatronik Mühendisliği", "mdbf.btu.edu.tr", "mekatronik", "139", EngineeringAndNaturalSciences),
    Department("Metalurji ve Malzeme Mühendisliği", "mdbf.btu.edu.tr", "metalurji", "138", EngineeringAndNaturalSciences),
    Department("Polimer Mühendisliği", "mdbf.btu.edu.tr", "polimer", "152", EngineeringAndNaturalSciences),
    Department("Veri Bilimi", "mdbf.btu.edu.tr", "veribilimi", "10333", EngineeringAndNaturalSciences),
    Department("Orman Endüstri Mühendisliği", "of.btu.edu.tr", "ormanendustri", "157", Forestry),
    Department("Orman Mühendisliği", "of.btu.edu.tr", "orman", "156", Forestry),
    Department("İktisat", "itbf.btu.edu.tr", "imtb", "10268", HumanAndSocialSciences),
    Department("İşletme", "itbf.btu.edu.tr", "business", "10045", HumanAndSocialSciences),
    Department("Psikoloji", "itbf.btu.edu.tr", "psikoloji", "155", HumanAndSocialSciences),
    Department("Sosyoloji", "itbf.btu.edu.tr", "sosyoloji", "10024", HumanAndSocialSciences),
    Department("Uluslararası İlişkiler", "itbf.btu.edu.tr", "ui", "153", HumanAndSocialSciences),
    Department("Uluslararası Ticaret ve Lojistik", "itbf.btu.edu.tr", "utl", "154", HumanAndSocialSciences),
    Department("Mimarlık", "mtf.btu.edu.tr", "mimarlik", "145", ArchitectureAndDesign),
    Department("Peyzaj Mimarlığı", "mtf.btu.edu.tr", "peyzaj", "10053", ArchitectureAndDesign),
    Department("Şehir ve Bölge Planlama", "mtf.btu.edu.tr", "sehir", "150", ArchitectureAndDesign),
    Department("Diş Hekimliği", "df.btu.edu.tr", "diy", "10004", Dentistry),
    Department("Genel Aile Hekimliği", "df.btu.edu.tr", "gigm", "10005", Dentistry)
  ]

  /** The first entry of `table` named `name`, if any: `dict.get` on the registry. */
  function Lookup(table: seq<Department>, name: string): (r: Option<Department>)
    ensures r.Some? <==> name in Names(table)
    ensures r.Some? ==> r.value in table && r.value.name == name
  {
    if table == [] then None
    else if table[0].name == name then Some(table[0])
    else Lookup(table[1..], name)
  }

  /** The keys of `table`, in order. */
  function Names(table: seq<Department>): (r: seq<string>)
    ensures |r| == |table|
    ensures forall i :: 0 <= i < |r| ==> r[i] == table[i].name
  {
    if table == [] then [] else [table[0].name] + Names(table[1..])
  }

  /** `get_department_names()`: the registry's keys in registry order. */
  function GetDepartmentNames(): (r: seq<string>)
    ensures |r| == |Registry|
    ensures forall i :: 0 <= i < |r| ==> r[i] == Registry[i].name
  {
    Names(Registry)
  }

  /** The listing URL `table` gives `name`; `None` for a name that is not a key. */
  function UrlIn(table: seq<Department>, name: string): (r: Option<string>)
    ensures r.Some? <==> name in Names(table)
    ensures r.Some? ==> exists d :: d in table && d.name == name && d.Url() == r.value
  {
    match Lookup(table, name)
    case None => None
    case Some(d) => Some(d.Url())
  }

  /** `get_department_url(name)`: total; `None` for a name that is not a key. */
  function GetDepartmentUrl(name: string): (r: Option<string>)
    ensures r.Some? <==> name in GetDepartmentNames()
    ensures r.Some? ==> exists d :: d in Registry && d.name == name && d.Url() == r.value
  {
    UrlIn(Registry, name)
  }

  /** `get_department_faculty(name)`: total; `None` for a name that is not a key. */
  function GetDepartmentFaculty(name: string): (r: Option<string>)
    ensures r.Some? <==> name in GetDepartmentNames()
    ensures r.Some? ==> exists d :: d in Registry && d.name == name && d.faculty == r.value
  {
    match Lookup(Registry, name)
    case None => None
    case Some(d) => Some(d.faculty)
  }

  /** Every URL the registry can return is an announcement listing page. */
  lemma ListingUrl(d: Department)
    ensures Text.Contains(d.Url(), ListingPath)
  {
    var pre := "https://" + d.host + "/tr/" + d.slug;
    assert d.Url() == pre + ListingPath + d.unit;
    assert Text.OccursAt(d.Url(), ListingPath, |pre|) by {
      assert (pre + ListingPath + d.unit)[|pre|..|pre| + |ListingPath|] == ListingPath;
    }
    Text.ContainsIsOccurrence(d.Url(), ListingPath);
  }

  lemma UrlsAreListingPages(name: string)
    ensures GetDepartmentUrl(name).Some? ==> Text.Contains(GetDepartmentUrl(name).value, ListingPath)
  {
    if GetDepartmentUrl(name).Some? {
      var d :| d in Registry && d.name == name && d.Url() == GetDepartmentUrl(name).value;
      ListingUrl(d);
    }
  }

  predicate DistinctNames(names: seq<string>)
  {
    forall i, j :: 0 <= i < j < |names| ==> names[i] != names[j]
  }

  /** `get_department_names()` lists 30 departments, none twice. */
  lemma RegistryShape()
    ensures |GetDepartmentNames()| == 30
    ensures DistinctNames(GetDepartmentNames())
  {
    DistinctRows0To2();
    DistinctRows2To4();
    DistinctRows4To6();
    DistinctRows6To9();
    DistinctRows9To12();
    DistinctRows12To18();
    DistinctRows18To24();
    DistinctRows24To30();
  }

  lemma DistinctRows0To2()
    ensures forall i, j :: 0 <= i < 2 && i < j < |Registry| ==> Registry[i].name != Registry[j].name
  {
  }

  lemma DistinctRows2To4()
    ensures forall i, j :: 2 <= i < 4 && i < j < |Registry| ==> Registry[i].name != Registry[j].name
  {
  }

  lemma DistinctRows4To6()
    ensures forall i, j :: 4 <= i < 6 && i < j < |Registry| ==> Registry[i].name != Registry[j].name
  {
  }

  lemma DistinctRows6To9()
    ensures forall i, j :: 6 <= i < 9 && i < j < |Registry| ==> Registry[i].name != Registry[j].name
  {
  }

  lemma DistinctRows9To12()
    ensures forall i, j :: 9 <= i < 12 && i < j < |Registry| ==> Registry[i].name != Registry[j].name
  {
  }

  lemma DistinctRows12To18()
    ensures forall i, j :: 12 <= i < 18 && i < j < |Registry| ==> Registry[i].name != Registry[j].name
  {
  }

  lemma DistinctRows18To24()
    ensures forall i, j :: 18 <= i < 24 && i < j < |Registry| ==> Registry[i].name != Registry[j].name
  {
  }

  lemma DistinctRows24To30()
    ensures forall i, j :: 24 <= i < 30 && i < j < |Registry| ==> Registry[i].name != Registry[j].name
  {
  }
}
