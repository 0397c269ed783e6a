/**
 * `getAvanceConNombre` (backend/src/avance/avance.service.ts): the student's
 * transcript records joined with the course names of the curriculum, sorted
 * by period. The two HTTP fetches are parameters: the transcript response and
 * the curriculum list.
 */
module AvanceJoin {
  import opened Strings
  import opened Collections
  import opened Model

  /** A transcript record as the avance endpoint serves it. */
  datatype AvanceRaw = AvanceRaw(course: string, status: Estado, period: string, nrc: string)

  /** The avance response: an object with a truthy `error`, or the list of records. */
  datatype AvanceRespuesta = ConError | Registros(items: seq<AvanceRaw>)

  /** `{ error: 'Avance no encontrado' }`, or the joined and sorted records. */
  datatype Resultado = NoEncontrado | Cursos(cursos: seq<Curso>)

  const DESCONOCIDO: string := "Desconocido"

  /**
   * `new Map(malla.map((m) => [m.codigo, m.asignatura]))`: the entries are set
   * in order, so a later entry with the same code overwrites an earlier one.
   */
  function MapaMalla(malla: seq<MallaItem>): map<string, string>
    decreases |malla|
  {
    if malla == [] then map[]
    else
      var last := malla[|malla| - 1];
      MapaMalla(malla[..|malla| - 1])[last.codigo := last.asignatura]
  }

  /** `malla[i]` is the last entry with code `c`. */
  predicate UltimoEn(malla: seq<MallaItem>, c: string, i: int) {
    && 0 <= i < |malla|
    && malla[i].codigo == c
    && (forall j | i < j < |malla| :: malla[j].codigo != c)
  }

  /** A code has a name exactly when some entry carries it, and the name is that of its last entry. */
  lemma {:induction false} MapaMallaUltimo(malla: seq<MallaItem>, c: string)
    ensures c in MapaMalla(malla) <==> exists i | 0 <= i < |malla| :: malla[i].codigo == c
    ensures c in MapaMalla(malla) ==> exists i | UltimoEn(malla, c, i) :: MapaMalla(malla)[c] == malla[i].asignatura
    decreases |malla|
  {
    if malla != [] {
      var n := |malla| - 1;
      var init := malla[..n];
      MapaMallaUltimo(init, c);
      if malla[n].codigo == c {
        assert UltimoEn(malla, c, n);
      } else {
        if exists i | 0 <= i < |malla| :: malla[i].codigo == c {
          var i :| 0 <= i < |malla| && malla[i].codigo == c;
          assert init[i].codigo == c;
        }
        if c in MapaMalla(init) {
          var i :| UltimoEn(init, c, i) && MapaMalla(init)[c] == init[i].asignatura;
          assert UltimoEn(malla, c, i);
        }
      }
    }
  }

  /** `mapaMalla.get(a.course) || 'Desconocido'`: a missing or empty name reads as unknown. */
  function Nombre(mapa: map<string, string>, course: string): string {
    if course in mapa && mapa[course] != "" then mapa[course] else DESCONOCIDO
  }

  /** The name of a course is that of its last curriculum entry, unless there is none or it is empty. */
  lemma NombreUltimo(malla: seq<MallaItem>, course: string)
    ensures (forall i | 0 <= i < |malla| :: malla[i].codigo != course) ==> Nombre(MapaMalla(malla), course) == DESCONOCIDO
    ensures forall i | UltimoEn(malla, course, i) ::
      Nombre(MapaMalla(malla), course) == (if malla[i].asignatura == "" then DESCONOCIDO else malla[i].asignatura)
  {
    MapaMallaUltimo(malla, course);
    forall i | UltimoEn(malla, course, i)
      ensures Nombre(MapaMalla(malla), course) == (if malla[i].asignatura == "" then DESCONOCIDO else malla[i].asignatura)
    {
      var k :| UltimoEn(malla, course, k) && MapaMalla(malla)[course] == malla[k].asignatura;
      assert k == i;
    }
  }

  /** One output record: the raw record's fields with the looked-up name. */
  function ConNombre(mapa: map<string, string>, a: AvanceRaw): Curso {
    Curso(a.course, Nombre(mapa, a.course), a.status, a.period, a.nrc)
  }

  /** `avance.map(...)`: one output record per raw record, in the same order. */
  function Joined(avance: seq<AvanceRaw>, malla: seq<MallaItem>): (r: seq<Curso>)
    ensures |r| == |avance|
    ensures forall i | 0 <= i < |avance| ::
      && r[i].course == avance[i].course && r[i].status == avance[i].status
      && r[i].period == avance[i].period && r[i].nrc == avance[i].nrc
      && r[i].nombre == Nombre(MapaMalla(malla), avance[i].course)
  {
    var mapa := MapaMalla(malla);
    seq(|avance|, i requires 0 <= i < |avance| => ConNombre(mapa, avance[i]))
  }

  /** `a.period.localeCompare(b.period)` at most 0. */
  predicate CursoLeq(a: Curso, b: Curso) {
    StrLeq(a.period, b.period)
  }

  /** `getAvanceConNombre`: the error object, or the joined records sorted by period. */
  function GetAvanceConNombre(avance: AvanceRespuesta, malla: seq<MallaItem>): (r: Resultado)
    ensures r.NoEncontrado? <==> avance.ConError?
  {
    if avance.ConError? then NoEncontrado
    else Cursos(SortBy(Joined(avance.items, malla), CursoLeq))
  }

  /**
   * A readable response gives every joined record exactly once, in
   * non-decreasing period order.
   */
  lemma GetAvanceConNombreSorted(avance: AvanceRespuesta, malla: seq<MallaItem>)
    requires avance.Registros?
    ensures GetAvanceConNombre(avance, malla).Cursos?
    ensures multiset(GetAvanceConNombre(avance, malla).cursos) == multiset(Joined(avance.items, malla))
    ensures SortedBy(GetAvanceConNombre(avance, malla).cursos, CursoLeq)
  {
    var joined := Joined(avance.items, malla);
    forall x: string, y: string ensures StrLeq(x, y) || StrLeq(y, x) {
      StrLeqTotal(x, y);
    }
    forall x: string, y: string, z: string | StrLeq(x, y) && StrLeq(y, z) ensures StrLeq(x, z) {
      StrLeqTransitive(x, y, z);
    }
    assert TotalPreorderOn(joined, CursoLeq);
    SortBySorted(joined, CursoLeq);
  }
}
