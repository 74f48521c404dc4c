/**
 * Pre-filling the contact form's `#servicio` select from the title of the
 * service card whose button was clicked.
 */
module ServiceMap {

  /** Service card titles and the select values they stand for. */
  const Services: map<string, string> := map[
    "Desarrollo de Software" := "desarrollo-software",
    "Desarrollo de Software a la Medida" := "desarrollo-software",
    "Venta de Equipos y Accesorios" := "venta-equipos",
    "Mantenimiento de Equipos" := "mantenimiento",
    "Reparación de Hardware" := "reparacion-hardware",
    "Instalación de Redes" := "instalacion-redes",
    "Instalación de Cámaras" := "instalacion-camaras"
  ]

  /** The select values the map can produce. */
  const SelectValues: set<string> := {
    "desarrollo-software", "venta-equipos", "mantenimiento",
    "reparacion-hardware", "instalacion-redes", "instalacion-camaras"
  }

  /**
   * The select's value after a card titled `title` (its exact text, untrimmed)
   * asked for it: the mapped value when the lookup gives a truthy value,
   * otherwise the value it had.
   */
  function Prefill(current: string, title: string): (r: string)
    ensures title in Services ==> r == Services[title] && r in SelectValues
    ensures title !in Services ==> r == current
  {
    if title in Services && Services[title] != "" then Services[title] else current
  }

  /** Both development titles select `desarrollo-software`, and every select value is reached by some title. */
  lemma DevelopmentTitles()
    ensures Prefill("", "Desarrollo de Software") == "desarrollo-software"
    ensures Prefill("", "Desarrollo de Software a la Medida") == "desarrollo-software"
    ensures forall v :: v in SelectValues ==> exists t :: t in Services && Services[t] == v
  {
    assert Services["Venta de Equipos y Accesorios"] == "venta-equipos";
    assert Services["Mantenimiento de Equipos"] == "mantenimiento";
    assert Services["Reparación de Hardware"] == "reparacion-hardware";
    assert Services["Instalación de Redes"] == "instalacion-redes";
    assert Services["Instalación de Cámaras"] == "instalacion-camaras";
    assert Services["Desarrollo de Software"] == "desarrollo-software";
  }

  /** The pre-filled value identifies the service, except that the two development titles share one value. */
  lemma PrefillIdentifiesService(t1: string, t2: string)
    requires t1 in Services && t2 in Services && t1 != t2
    requires Prefill("", t1) == Prefill("", t2)
    ensures {t1, t2} == {"Desarrollo de Software", "Desarrollo de Software a la Medida"}
  {
    if Services[t1] == "desarrollo-software" {
      DevelopmentOnly(t1);
      DevelopmentOnly(t2);
    } else {
      OtherValuesUnique(t1, t2);
    }
  }

  lemma DevelopmentOnly(t: string)
    requires t in Services && Services[t] == "desarrollo-software"
    ensures t == "Desarrollo de Software" || t == "Desarrollo de Software a la Medida"
  {
  }

  lemma OtherValuesUnique(t1: string, t2: string)
    requires t1 in Services && t2 in Services && Services[t1] == Services[t2]
    requires Services[t1] != "desarrollo-software"
    ensures t1 == t2
  {
  }
}
